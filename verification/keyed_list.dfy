/** An ordered collection of objects identified by a key, as one head entry of
    the dedup multi-index holds them for one owner and one object type. The
    key function and the MERGE combination of two objects are parameters: the
    model fixes where an object goes, not what its fields are. */
module KeyedList {
  import opened Common
  import opened L3Flags

  /** The keys present in `s`. */
  function Keys<O, K>(s: seq<O>, key: O -> K): set<K> {
    set i | 0 <= i < |s| :: key(s[i])
  }

  /** No two entries share a key. */
  predicate UniqueKeys<O, K(==)>(s: seq<O>, key: O -> K) {
    forall i, j :: 0 <= i < j < |s| ==> key(s[i]) != key(s[j])
  }

  /** Merging two objects with equal keys yields an object with that key. */
  ghost predicate MergeKeepsKey<O(!new), K>(key: O -> K, merge: (O, O) -> O) {
    forall a, b :: key(a) == key(b) ==> key(merge(a, b)) == key(a)
  }

  /** Position of the first entry whose key is `k`. */
  function IndexOf<O, K(==)>(s: seq<O>, key: O -> K, k: K): (r: Option<nat>)
    ensures r.None? <==> k !in Keys(s, key)
    ensures r.Some? ==> r.value < |s| && key(s[r.value]) == k
    ensures r.Some? ==> forall i :: 0 <= i < r.value ==> key(s[i]) != k
  {
    if |s| == 0 then None
    else if key(s[0]) == k then Some(0)
    else
      match IndexOf(s[1..], key, k)
      case None =>
        assert forall i :: 0 < i < |s| ==> s[i] == s[1..][i - 1];
        None
      case Some(i) => Some(i + 1)
  }

  /** What one insertion produced: the new list, whether it differs from the
      old one, and the entry that now stands for the object's key. */
  datatype AddOutcome<O> = AddOutcome(entries: seq<O>, changed: bool, obj: O)

  /** The entry that replaces an existing one under `flags`. */
  function Replacement<O>(existing: O, o: O, merge: (O, O) -> O, flags: AddFlags): O {
    if flags.Merge() then merge(existing, o) else o
  }

  /** `s` with the entry at `i` removed and `e` appended. */
  function MoveToEnd<O>(s: seq<O>, i: nat, e: O): (r: seq<O>)
    requires i < |s|
    ensures |r| == |s| && r[|s| - 1] == e
    ensures forall j :: 0 <= j < i ==> r[j] == s[j]
    ensures forall j :: i < j < |s| ==> r[j - 1] == s[j]
  {
    s[..i] + s[i + 1..] + [e]
  }

  /** Inserts `o` according to the add-flag rules:
      - a new key is appended at the end;
      - an existing key under EXCLUSIVE leaves the list untouched;
      - otherwise the existing entry is replaced by `o` (or by the MERGE of
        the two), in place, or moved to the end under APPEND_FORCE. */
  function Add<O(==), K(==)>(s: seq<O>, o: O, key: O -> K, merge: (O, O) -> O, flags: AddFlags): (r: AddOutcome<O>)
    ensures r.changed <==> r.entries != s
    ensures key(o) !in Keys(s, key) ==>
              && |r.entries| == |s| + 1
              && r.entries[..|s|] == s
              && r.entries[|s|] == o
              && r.obj == o
    ensures key(o) in Keys(s, key) && flags.Exclusive() ==>
              var i := IndexOf(s, key, key(o)).value;
              r.entries == s && !r.changed && r.obj == s[i]
    ensures key(o) in Keys(s, key) && !flags.Exclusive() && !flags.AppendForce() ==>
              var i := IndexOf(s, key, key(o)).value;
              && |r.entries| == |s|
              && r.entries[i] == Replacement(s[i], o, merge, flags) == r.obj
              && forall j :: 0 <= j < |s| && j != i ==> r.entries[j] == s[j]
    ensures key(o) in Keys(s, key) && !flags.Exclusive() && flags.AppendForce() ==>
              var i := IndexOf(s, key, key(o)).value;
              && |r.entries| == |s|
              && r.entries[|s| - 1] == Replacement(s[i], o, merge, flags) == r.obj
              && (forall j :: 0 <= j < i ==> r.entries[j] == s[j])
              && (forall j :: i < j < |s| ==> r.entries[j - 1] == s[j])
  {
    match IndexOf(s, key, key(o))
    case None => AddOutcome(s + [o], true, o)
    case Some(i) =>
      if flags.Exclusive() then AddOutcome(s, false, s[i])
      else
        var e := Replacement(s[i], o, merge, flags);
        var entries := if flags.AppendForce() then MoveToEnd(s, i, e) else s[i := e];
        AddOutcome(entries, entries != s, e)
  }

  /** After an insertion the keys are the old ones plus the object's key. */
  lemma AddKeys<O(!new), K>(s: seq<O>, o: O, key: O -> K, merge: (O, O) -> O, flags: AddFlags)
    requires MergeKeepsKey(key, merge)
    ensures Keys(Add(s, o, key, merge, flags).entries, key) == Keys(s, key) + {key(o)}
    ensures key(Add(s, o, key, merge, flags).obj) == key(o)
  {
    var r := Add(s, o, key, merge, flags).entries;
    if key(o) in Keys(s, key) {
      var i := IndexOf(s, key, key(o)).value;
      if !flags.Exclusive() {
        forall k | k in Keys(s, key) ensures k in Keys(r, key) {
          var j :| 0 <= j < |s| && key(s[j]) == k;
          if j == i {
          } else if !flags.AppendForce() {
            assert r[j] == s[j];
          } else if j < i {
            assert r[j] == s[j];
          } else {
            assert r[j - 1] == s[j];
          }
        }
        forall k | k in Keys(r, key) ensures k in Keys(s, key) {
          var j :| 0 <= j < |r| && key(r[j]) == k;
          if !flags.AppendForce() {
            if j != i { assert r[j] == s[j]; }
          } else if j < i {
            assert r[j] == s[j];
          } else if j < |s| - 1 {
            assert r[j] == s[j + 1];
          }
        }
      }
    } else {
      assert forall j :: 0 <= j < |s| ==> r[j] == s[j];
      assert r[|s|] == o;
    }
  }

  /** Insertion never introduces a second entry with the same key. */
  lemma AddKeepsUniqueKeys<O(!new), K>(s: seq<O>, o: O, key: O -> K, merge: (O, O) -> O, flags: AddFlags)
    requires MergeKeepsKey(key, merge)
    requires UniqueKeys(s, key)
    ensures UniqueKeys(Add(s, o, key, merge, flags).entries, key)
  {
    if key(o) !in Keys(s, key) {
      AppendNewKeyKeepsUnique(s, o, key);
    } else if !flags.Exclusive() {
      var x := IndexOf(s, key, key(o)).value;
      var e := Replacement(s[x], o, merge, flags);
      assert key(e) == key(s[x]);
      if flags.AppendForce() {
        MoveSameKeyKeepsUnique(s, x, e, key);
      } else {
        ReplaceSameKeyKeepsUnique(s, x, e, key);
      }
    }
  }

  lemma AppendNewKeyKeepsUnique<O, K>(s: seq<O>, o: O, key: O -> K)
    requires UniqueKeys(s, key) && key(o) !in Keys(s, key)
    ensures UniqueKeys(s + [o], key)
  {
    var r := s + [o];
    forall i, j | 0 <= i < j < |r| ensures key(r[i]) != key(r[j]) {
      assert r[i] == s[i];
      if j < |s| { assert r[j] == s[j]; }
      else { assert key(s[i]) in Keys(s, key); }
    }
  }

  lemma ReplaceSameKeyKeepsUnique<O, K>(s: seq<O>, x: nat, e: O, key: O -> K)
    requires UniqueKeys(s, key) && x < |s| && key(e) == key(s[x])
    ensures UniqueKeys(s[x := e], key)
  {
    var r := s[x := e];
    forall i, j | 0 <= i < j < |r| ensures key(r[i]) != key(r[j]) {
      assert key(r[i]) == key(s[i]);
      assert key(r[j]) == key(s[j]);
    }
  }

  lemma MoveSameKeyKeepsUnique<O, K>(s: seq<O>, x: nat, e: O, key: O -> K)
    requires UniqueKeys(s, key) && x < |s| && key(e) == key(s[x])
    ensures UniqueKeys(MoveToEnd(s, x, e), key)
  {
    var r := MoveToEnd(s, x, e);
    // position p < |s| - 1 of r came from position p or p + 1 of s
    forall i, j | 0 <= i < j < |r| ensures key(r[i]) != key(r[j]) {
      var si := if i < x then i else i + 1;
      assert key(r[i]) == key(s[si]);
      if j == |r| - 1 {
        assert key(r[j]) == key(s[x]);
      } else {
        var sj := if j < x then j else j + 1;
        assert key(r[j]) == key(s[sj]);
      }
    }
  }

  /** An object that already sits where the rules would put it is left
      where it is. */
  lemma AddAtOwnPlace<O, K>(t: seq<O>, o: O, p: nat, key: O -> K, merge: (O, O) -> O, flags: AddFlags)
    requires IndexOf(t, key, key(o)) == Some(p) && t[p] == o
    requires !flags.Merge()
    requires flags.AppendForce() ==> p == |t| - 1
    ensures Add(t, o, key, merge, flags).entries == t
  {
    if !flags.Exclusive() && flags.AppendForce() {
      assert MoveToEnd(t, p, o) == t;
    }
  }

  /** Inserting the same object a second time changes nothing when the
      flags do not ask for a MERGE: the first insertion already put the
      object where the rules want it. */
  lemma AddTwiceIsAddOnce<O(!new), K>(s: seq<O>, o: O, key: O -> K, merge: (O, O) -> O, flags: AddFlags)
    requires UniqueKeys(s, key)
    requires !flags.Merge()
    ensures var once := Add(s, o, key, merge, flags);
            Add(once.entries, o, key, merge, flags).entries == once.entries
    ensures !Add(Add(s, o, key, merge, flags).entries, o, key, merge, flags).changed
  {
    if key(o) !in Keys(s, key) {
      AddTwiceNewKey(s, o, key, merge, flags);
    } else if !flags.Exclusive() {
      if flags.AppendForce() {
        AddTwiceMoved(s, o, key, merge, flags);
      } else {
        AddTwiceReplaced(s, o, key, merge, flags);
      }
    }
  }

  lemma AddTwiceNewKey<O, K>(s: seq<O>, o: O, key: O -> K, merge: (O, O) -> O, flags: AddFlags)
    requires key(o) !in Keys(s, key)
    requires !flags.Merge()
    ensures var once := Add(s, o, key, merge, flags).entries;
            Add(once, o, key, merge, flags).entries == once
  {
    var once := Add(s, o, key, merge, flags).entries;
    assert once == s + [o];
    assert forall j :: 0 <= j < |s| ==> key(once[j]) != key(o) by {
      assert forall j :: 0 <= j < |s| ==> once[j] == s[j];
    }
    assert IndexOf(once, key, key(o)) == Some(|s|);
    AddAtOwnPlace(once, o, |s|, key, merge, flags);
  }

  lemma AddTwiceReplaced<O, K>(s: seq<O>, o: O, key: O -> K, merge: (O, O) -> O, flags: AddFlags)
    requires key(o) in Keys(s, key)
    requires !flags.Merge() && !flags.Exclusive() && !flags.AppendForce()
    ensures var once := Add(s, o, key, merge, flags).entries;
            Add(once, o, key, merge, flags).entries == once
  {
    var x := IndexOf(s, key, key(o)).value;
    var once := Add(s, o, key, merge, flags).entries;
    assert once == s[x := o];
    assert forall j :: 0 <= j < x ==> once[j] == s[j];
    assert IndexOf(once, key, key(o)) == Some(x);
    AddAtOwnPlace(once, o, x, key, merge, flags);
  }

  lemma AddTwiceMoved<O, K>(s: seq<O>, o: O, key: O -> K, merge: (O, O) -> O, flags: AddFlags)
    requires UniqueKeys(s, key)
    requires key(o) in Keys(s, key)
    requires !flags.Merge() && !flags.Exclusive() && flags.AppendForce()
    ensures var once := Add(s, o, key, merge, flags).entries;
            Add(once, o, key, merge, flags).entries == once
  {
    var x := IndexOf(s, key, key(o)).value;
    var once := Add(s, o, key, merge, flags).entries;
    assert once == MoveToEnd(s, x, o);
    var last := |s| - 1;
    forall j | 0 <= j < last ensures key(once[j]) != key(o) {
      if j < x { assert once[j] == s[j]; } else { assert once[j] == s[j + 1]; }
    }
    assert IndexOf(once, key, key(o)) == Some(last);
    AddAtOwnPlace(once, o, last, key, merge, flags);
  }

  /** Inserts every object of `xs`, in order. */
  function AddAll<O(==), K(==)>(s: seq<O>, xs: seq<O>, key: O -> K, merge: (O, O) -> O, flags: AddFlags): seq<O>
    decreases |xs|
  {
    if |xs| == 0 then s
    else AddAll(Add(s, xs[0], key, merge, flags).entries, xs[1..], key, merge, flags)
  }

  /** The keys after inserting `xs` are the old keys plus those of `xs`, and
      keys stay unique. */
  lemma {:induction false} AddAllKeys<O(!new), K>(s: seq<O>, xs: seq<O>, key: O -> K, merge: (O, O) -> O, flags: AddFlags)
    requires MergeKeepsKey(key, merge)
    ensures Keys(AddAll(s, xs, key, merge, flags), key) == Keys(s, key) + Keys(xs, key)
    ensures UniqueKeys(s, key) ==> UniqueKeys(AddAll(s, xs, key, merge, flags), key)
    decreases |xs|
  {
    if |xs| > 0 {
      var s1 := Add(s, xs[0], key, merge, flags).entries;
      AddKeys(s, xs[0], key, merge, flags);
      if UniqueKeys(s, key) { AddKeepsUniqueKeys(s, xs[0], key, merge, flags); }
      AddAllKeys(s1, xs[1..], key, merge, flags);
      KeysOfCons(xs, key);
    }
  }

  /** The keys of a non-empty list: its head's key and the keys of its tail. */
  lemma KeysOfCons<O, K>(xs: seq<O>, key: O -> K)
    requires |xs| > 0
    ensures Keys(xs, key) == {key(xs[0])} + Keys(xs[1..], key)
  {
    forall k | k in Keys(xs, key) ensures k in {key(xs[0])} + Keys(xs[1..], key) {
      var j :| 0 <= j < |xs| && key(xs[j]) == k;
      if j > 0 { assert xs[1..][j - 1] == xs[j]; }
    }
    forall k | k in Keys(xs[1..], key) ensures k in Keys(xs, key) {
      var j :| 0 <= j < |xs[1..]| && key(xs[1..][j]) == k;
      assert xs[j + 1] == xs[1..][j];
    }
  }
}
