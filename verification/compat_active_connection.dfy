/** The legacy (0.7-style) D-Bus view of an active connection: its state is
    reported in the old three-value encoding, its service name says whether
    the connection came from user or system settings, and each object is
    exported under a path that ends in a running index. */
module CompatActiveConnection {
  import opened Common

  // ---- state mapping -------------------------------------------------------------

  /** NMActiveConnectionState, as read from the parent active connection. */
  datatype ActiveConnectionState = Unknown | Activating | Activated | Deactivating | Deactivated

  const OLD_AC_STATE_UNKNOWN: uint32 := 0
  const OLD_AC_STATE_ACTIVATING: uint32 := 1
  const OLD_AC_STATE_ACTIVATED: uint32 := 2

  /** new_state_to_old: ACTIVATING and ACTIVATED keep their meaning, every
      other state is reported as UNKNOWN. */
  function NewStateToOld(state: ActiveConnectionState): (r: uint32)
    ensures r in {OLD_AC_STATE_UNKNOWN, OLD_AC_STATE_ACTIVATING, OLD_AC_STATE_ACTIVATED}
    ensures r == OLD_AC_STATE_ACTIVATING <==> state == Activating
    ensures r == OLD_AC_STATE_ACTIVATED <==> state == Activated
    ensures r == OLD_AC_STATE_UNKNOWN <==> state !in {Activating, Activated}
  {
    match state
    case Activating => OLD_AC_STATE_ACTIVATING
    case Activated => OLD_AC_STATE_ACTIVATED
    case _ => OLD_AC_STATE_UNKNOWN
  }

  /** The old encoding loses only the distinction between the states it
      reports as UNKNOWN: two different states that map to the same value
      both map to UNKNOWN. */
  lemma NewStateToOldCollapsesOnlyUnknown(a: ActiveConnectionState, b: ActiveConnectionState)
    requires a != b && NewStateToOld(a) == NewStateToOld(b)
    ensures NewStateToOld(a) == OLD_AC_STATE_UNKNOWN
  {
  }

  // ---- service name --------------------------------------------------------------

  const USER_SETTINGS_SERVICE: string := "org.freedesktop.NetworkManagerUserSettings"
  const SYSTEM_SETTINGS_SERVICE: string := "org.freedesktop.NetworkManagerSystemSettings"

  /** The service-name property: the user-settings service when the parent's
      connection carries the "user" data tag, the system-settings service
      otherwise. */
  function ServiceName(taggedUser: bool): (r: string)
    ensures r in {USER_SETTINGS_SERVICE, SYSTEM_SETTINGS_SERVICE}
    ensures r == USER_SETTINGS_SERVICE <==> taggedUser
  {
    if taggedUser then USER_SETTINGS_SERVICE else SYSTEM_SETTINGS_SERVICE
  }

  // ---- decimal rendering -----------------------------------------------------------

  predicate IsDigit(c: char) { '0' <= c <= '9' }

  predicate AllDigits(s: string) {
    forall i :: 0 <= i < |s| ==> IsDigit(s[i])
  }

  function DigitChar(d: nat): (c: char)
    requires d < 10
    ensures IsDigit(c) && c as int - '0' as int == d
  {
    ('0' as int + d) as char
  }

  /** The decimal digits of `n`, most significant first, without leading
      zeros: what printf's %u produces. */
  function Decimal(n: nat): (s: string)
    ensures |s| > 0 && AllDigits(s)
    decreases n
  {
    if n < 10 then [DigitChar(n)] else Decimal(n / 10) + [DigitChar(n % 10)]
  }

  /** The value of a string of decimal digits. */
  function ParseDecimal(s: string): nat
    requires AllDigits(s)
    decreases |s|
  {
    if |s| == 0 then 0
    else ParseDecimal(s[..|s| - 1]) * 10 + (s[|s| - 1] as int - '0' as int)
  }

  lemma {:induction false} DecimalRoundTrip(n: nat)
    ensures ParseDecimal(Decimal(n)) == n
    decreases n
  {
    if n >= 10 {
      var s := Decimal(n);
      assert s[..|s| - 1] == Decimal(n / 10);
      DecimalRoundTrip(n / 10);
    }
  }

  /** Different numbers render differently. */
  lemma DecimalInjective(a: nat, b: nat)
    requires Decimal(a) == Decimal(b)
    ensures a == b
  {
    DecimalRoundTrip(a);
    DecimalRoundTrip(b);
  }

  /** A C `int` as printf's %d renders it. */
  function SignedDecimal(x: int): string {
    if x < 0 then "-" + Decimal(-x) else Decimal(x)
  }

  /** The `int` a `guint32` argument is read as by %d: two's complement
      reinterpretation. */
  function AsInt32(u: uint32): (x: int)
    ensures -0x8000_0000 <= x < 0x8000_0000
    ensures x % UINT32_LIMIT == u
  {
    if u < 0x8000_0000 then u else u - UINT32_LIMIT
  }

  // ---- D-Bus object paths -------------------------------------------------------------

  /** A character allowed inside an element of a D-Bus object path. */
  predicate IsElementChar(c: char) {
    ('A' <= c <= 'Z') || ('a' <= c <= 'z') || ('0' <= c <= '9') || c == '_'
  }

  /** A valid D-Bus object path (section "Valid Object Paths" of the D-Bus
      specification): "/" or a sequence of '/'-prefixed non-empty elements of
      [A-Za-z0-9_]. */
  predicate IsObjectPath(p: string) {
    && |p| > 0
    && p[0] == '/'
    && (forall i :: 0 <= i < |p| ==> p[i] == '/' || IsElementChar(p[i]))
    && (forall i :: 0 <= i < |p| - 1 ==> !(p[i] == '/' && p[i + 1] == '/'))
    && (|p| > 1 ==> p[|p| - 1] != '/')
  }

  /** Appending an element to a non-root path keeps it valid. */
  lemma AppendElement(p: string, e: string)
    requires IsObjectPath(p) && |p| > 1
    requires |e| > 0 && forall i :: 0 <= i < |e| ==> IsElementChar(e[i])
    ensures IsObjectPath(p + "/" + e)
  {
    var q := p + "/" + e;
    forall i | 0 <= i < |q| ensures q[i] == '/' || IsElementChar(q[i]) {
      if i > |p| { assert q[i] == e[i - |p| - 1]; }
    }
    forall i | 0 <= i < |q| - 1 ensures !(q[i] == '/' && q[i + 1] == '/') {
      if i + 1 < |p| {
        assert q[i] == p[i] && q[i + 1] == p[i + 1];
      } else if i + 1 == |p| {
        assert q[i] == p[|p| - 1];
      } else {
        assert q[i + 1] == e[i - |p|];
      }
    }
  }

  /** The directory the compat objects are exported under. */
  const PATH_DIR: string := "/org" + "/" + "freedesktop" + "/" + "NetworkManagerCompat" + "/" + "ActiveConnection"

  lemma PathDirIsObjectPath()
    ensures IsObjectPath(PATH_DIR) && |PATH_DIR| > 1
  {
    var p1 := "/org";
    assert IsObjectPath(p1);
    AppendElement(p1, "freedesktop");
    var p2 := p1 + "/" + "freedesktop";
    AppendElement(p2, "NetworkManagerCompat");
    var p3 := p2 + "/" + "NetworkManagerCompat";
    AppendElement(p3, "ActiveConnection");
  }

  /** The object path of index `idx` as the format "%d" renders it: the
      plain digits below 2^31, a '-' and the digits of 2^32 - idx from 2^31
      on. */
  function PathAsWritten(idx: uint32): (p: string)
    ensures idx < 0x8000_0000 ==> p == PATH_DIR + "/" + Decimal(idx)
    ensures idx >= 0x8000_0000 ==> p == PATH_DIR + "/-" + Decimal(UINT32_LIMIT - idx)
  {
    var s := SignedDecimal(AsInt32(idx));
    assert idx >= 0x8000_0000 ==> PATH_DIR + "/" + s == PATH_DIR + "/-" + Decimal(UINT32_LIMIT - idx);
    PATH_DIR + "/" + s
  }

  /** The object path of index `idx` rendered as unsigned ("%u"). */
  function Path(idx: uint32): (p: string)
    ensures IsObjectPath(p)
  {
    PathDirIsObjectPath();
    AppendElement(PATH_DIR, Decimal(idx));
    PATH_DIR + "/" + Decimal(idx)
  }

  /** Different indexes give different paths. */
  lemma PathInjective(a: uint32, b: uint32)
    requires Path(a) == Path(b)
    ensures a == b
  {
    var n := |PATH_DIR + "/"|;
    assert Path(a)[n..] == Decimal(a);
    assert Path(b)[n..] == Decimal(b);
    DecimalInjective(a, b);
  }

  /** Different indexes give different "%d" paths too: the rendering is
      injective on 32-bit ints, and so is the reinterpretation. */
  lemma PathAsWrittenInjective(a: uint32, b: uint32)
    requires PathAsWritten(a) == PathAsWritten(b)
    ensures a == b
  {
    var n := |PATH_DIR + "/"|;
    var sa := SignedDecimal(AsInt32(a));
    var sb := SignedDecimal(AsInt32(b));
    assert PathAsWritten(a)[n..] == sa;
    assert PathAsWritten(b)[n..] == sb;
    SignedDecimalInjective(AsInt32(a), AsInt32(b));
  }

  lemma SignedDecimalInjective(x: int, y: int)
    requires SignedDecimal(x) == SignedDecimal(y)
    ensures x == y
  {
    SignedDecimalSign(x);
    SignedDecimalSign(y);
    if x < 0 {
      var s := SignedDecimal(x);
      assert s[1..] == Decimal(-x) && s[1..] == Decimal(-y);
      DecimalInjective(-x, -y);
    } else {
      DecimalInjective(x, y);
    }
  }

  /** The rendering starts with '-' exactly for negative numbers. */
  lemma SignedDecimalSign(x: int)
    ensures |SignedDecimal(x)| > 0
    ensures SignedDecimal(x)[0] == '-' <==> x < 0
  {
    if x >= 0 {
      assert IsDigit(Decimal(x)[0]);
    }
  }

  /** Below 2^31 the two renderings agree. */
  lemma PathAsWrittenAgreesBelowHalf(idx: uint32)
    requires idx < 0x8000_0000
    ensures PathAsWritten(idx) == Path(idx)
  {
  }

  /** From 2^31 on, "%d" renders the index negative, and the '-' after the
      last '/' makes the result an invalid object path. */
  lemma PathAsWrittenInvalidFromHalf(idx: uint32)
    requires idx >= 0x8000_0000
    ensures PathAsWritten(idx) == PATH_DIR + "/-" + Decimal(UINT32_LIMIT - idx)
    ensures !IsObjectPath(PathAsWritten(idx))
  {
    var digits := Decimal(UINT32_LIMIT - idx);
    assert SignedDecimal(AsInt32(idx)) == "-" + digits;
    var p := PATH_DIR + "/" + ("-" + digits);
    assert p == PATH_DIR + "/-" + digits;
    assert p[|PATH_DIR| + 1] == '-';
    BadCharIsNotObjectPath(p, |PATH_DIR| + 1);
  }

  /** The "%d" path is a valid object path exactly below 2^31. */
  lemma PathAsWrittenValidBelowHalf(idx: uint32)
    ensures IsObjectPath(PathAsWritten(idx)) <==> idx < 0x8000_0000
  {
    if idx < 0x8000_0000 {
      PathAsWrittenAgreesBelowHalf(idx);
    } else {
      PathAsWrittenInvalidFromHalf(idx);
    }
  }

  /** A character that is neither '/' nor an element character spoils a
      path. */
  lemma BadCharIsNotObjectPath(p: string, i: nat)
    requires i < |p| && p[i] != '/' && !IsElementChar(p[i])
    ensures !IsObjectPath(p)
  {
  }

  // ---- construction --------------------------------------------------------------------

  /** One construction: the index it used, the path it exported, and the
      value the static counter holds afterwards. */
  datatype Construction = Construction(index: uint32, path: string, next: uint32)

  /** `idx++` on a `guint32`: the increment wraps around at 2^32. */
  function NextIndex(counter: uint32): (n: uint32)
    ensures counter < UINT32_LIMIT - 1 ==> n == counter + 1
    ensures counter == UINT32_LIMIT - 1 ==> n == 0
  {
    (counter + 1) % UINT32_LIMIT
  }

  /** nm_compat_active_connection_new, for the counter value `counter`: the
      object takes the current index, its path renders it with "%d", and the
      counter is incremented with 32-bit wrap-around. The path is a valid
      object path only below 2^31. */
  function NewCompatActiveConnection(counter: uint32): (r: Construction)
    ensures r.index == counter && r.path == PathAsWritten(counter)
    ensures r.next == NextIndex(counter)
    ensures IsObjectPath(r.path) <==> counter < 0x8000_0000
  {
    PathAsWrittenValidBelowHalf(counter);
    Construction(counter, PathAsWritten(counter), NextIndex(counter))
  }

  /** The constructor with the index rendered unsigned: every path is a valid
      object path. */
  function NewCompatActiveConnectionCorrected(counter: uint32): (r: Construction)
    ensures r.index == counter && r.path == Path(counter)
    ensures r.next == NextIndex(counter)
    ensures IsObjectPath(r.path)
  {
    Construction(counter, Path(counter), NextIndex(counter))
  }

  /** The counter after `k` constructions. */
  function Advance(counter: uint32, k: nat): uint32
    decreases k
  {
    if k == 0 then counter else Advance(NextIndex(counter), k - 1)
  }

  lemma {:induction false} AdvanceIsModular(counter: uint32, k: nat)
    ensures Advance(counter, k) == (counter + k) % UINT32_LIMIT
    decreases k
  {
    if k > 0 {
      var c1 := NextIndex(counter);
      AdvanceIsModular(c1, k - 1);
      assert (c1 + (k - 1)) % UINT32_LIMIT == (counter + k) % UINT32_LIMIT by {
        assert c1 == (counter + 1) % UINT32_LIMIT;
        ModAddLeft(counter + 1, k - 1);
      }
    }
  }

  lemma ModAddLeft(a: nat, b: nat)
    ensures (a % UINT32_LIMIT + b) % UINT32_LIMIT == (a + b) % UINT32_LIMIT
  {
    var q := a / UINT32_LIMIT;
    assert a == q * UINT32_LIMIT + a % UINT32_LIMIT;
    assert a + b == (a % UINT32_LIMIT + b) + q * UINT32_LIMIT;
  }

  /** Objects constructed one after the other get distinct indexes, hence
      distinct paths, as long as fewer than 2^32 constructions separate
      them. */
  lemma ConsecutivePathsDistinct(counter: uint32, i: nat, j: nat)
    requires i < j < UINT32_LIMIT
    ensures NewCompatActiveConnection(Advance(counter, i)).path != NewCompatActiveConnection(Advance(counter, j)).path
  {
    var a := Advance(counter, i);
    var b := Advance(counter, j);
    AdvanceDistinct(counter, i, j);
    if PathAsWritten(a) == PathAsWritten(b) {
      PathAsWrittenInjective(a, b);
    }
  }

  /** The same holds for the corrected constructor. */
  lemma ConsecutivePathsDistinctCorrected(counter: uint32, i: nat, j: nat)
    requires i < j < UINT32_LIMIT
    ensures NewCompatActiveConnectionCorrected(Advance(counter, i)).path
            != NewCompatActiveConnectionCorrected(Advance(counter, j)).path
  {
    var a := Advance(counter, i);
    var b := Advance(counter, j);
    AdvanceDistinct(counter, i, j);
    if Path(a) == Path(b) {
      PathInjective(a, b);
    }
  }

  /** Fewer than 2^32 steps apart, the counter values differ. */
  lemma AdvanceDistinct(counter: uint32, i: nat, j: nat)
    requires i < j < UINT32_LIMIT
    ensures Advance(counter, i) != Advance(counter, j)
  {
    AdvanceIsModular(counter, i);
    AdvanceIsModular(counter, j);
    ModEqualDistance(counter + i, counter + j);
  }

  lemma ModEqualDistance(x: nat, y: nat)
    requires x < y < x + UINT32_LIMIT
    ensures x % UINT32_LIMIT != y % UINT32_LIMIT
  {
    ModAddLeft(x, y - x);
    var r := x % UINT32_LIMIT + (y - x);
    if r < UINT32_LIMIT {
      assert y % UINT32_LIMIT == r;
    } else {
      assert y % UINT32_LIMIT == r - UINT32_LIMIT;
    }
  }

  /** After 2^32 constructions the counter is back where it started, so the
      next object reuses a path. */
  lemma PathsRepeatAfterWrap(counter: uint32, i: nat)
    ensures Advance(counter, i + UINT32_LIMIT) == Advance(counter, i)
  {
    AdvanceIsModular(counter, i);
    AdvanceIsModular(counter, i + UINT32_LIMIT);
    ModAddLeft(counter + i, UINT32_LIMIT);
    assert (counter + i) % UINT32_LIMIT + UINT32_LIMIT == ((counter + i) % UINT32_LIMIT) + 1 * UINT32_LIMIT;
  }
}
