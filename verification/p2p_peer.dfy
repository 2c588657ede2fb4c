/** The Wi-Fi P2P peer as libnm exposes it, and the check that decides which
    saved connections may be activated with a peer. */
module P2PPeer {
  import opened Common

  /** NM_SETTING_P2P_WIRELESS_SETTING_NAME: the connection type of a Wi-Fi
      P2P connection. */
  const P2P_WIRELESS_SETTING_NAME: string := "p2p-wireless"

  /** The `last_seen` value of a peer that has never been seen. */
  const NEVER_SEEN: int := -1

  /** The part of NMSettingConnection the check reads. */
  datatype SettingConnection = SettingConnection(connectionType: Option<string>)

  /** The part of NMSettingP2PWireless the check reads: the peer's MAC
      address as text. */
  datatype SettingP2PWireless = SettingP2PWireless(peer: Option<string>)

  /** A connection as the settings it carries; a missing setting is None. */
  datatype Connection = Connection(
    settingConnection: Option<SettingConnection>,
    settingP2PWireless: Option<SettingP2PWireless>)

  /** NMP2PPeerPrivate. Absent strings are None. */
  datatype Peer = Peer(
    flags: nat,
    name: Option<string>,
    manufacturer: Option<string>,
    model: Option<string>,
    modelNumber: Option<string>,
    serial: Option<string>,
    hwAddress: Option<string>,
    strength: uint8,
    lastSeen: int)
  {
    /** The documented meaning of `last_seen == -1`. */
    predicate NeverSeen() { lastSeen == NEVER_SEEN }
  }

  /** nm_p2p_peer_init on a zero-filled instance: every pointer NULL, every
      number 0, and `last_seen` set to "never seen". */
  function PeerInit(): (p: Peer)
    ensures p.NeverSeen()
    ensures p.hwAddress.None? && p.strength == 0
  {
    Peer(0, None, None, None, None, None, None, 0, NEVER_SEEN)
  }

  /** nm_p2p_peer_connection_valid: a chain of guards, each of which rejects
      the connection: no connection setting; a type other than the P2P
      setting name; no P2P setting; a peer without hardware address; a
      setting without peer address or with one that differs, as a string,
      from the peer's hardware address. */
  function ConnectionValid(peer: Peer, connection: Connection): (v: bool)
    ensures v <==> && connection.settingConnection.Some?
                   && connection.settingConnection.value.connectionType == Some(P2P_WIRELESS_SETTING_NAME)
                   && connection.settingP2PWireless.Some?
                   && peer.hwAddress.Some?
                   && connection.settingP2PWireless.value.peer == peer.hwAddress
  {
    match connection.settingConnection
    case None => false
    case Some(sCon) =>
      match sCon.connectionType
      case None => false
      case Some(ctype) =>
        if ctype != P2P_WIRELESS_SETTING_NAME then false
        else
          match connection.settingP2PWireless
          case None => false
          case Some(sP2P) =>
            match peer.hwAddress
            case None => false
            case Some(hwAddress) =>
              match sP2P.peer
              case None => false
              case Some(settingPeer) => hwAddress == settingPeer
  }

  /** A connection is valid for peers of one hardware address only. */
  lemma ValidForOneAddress(p1: Peer, p2: Peer, connection: Connection)
    requires ConnectionValid(p1, connection) && ConnectionValid(p2, connection)
    ensures p1.hwAddress == p2.hwAddress
  {
  }

  /** Validity looks at the peer's hardware address and at nothing else of
      the peer. */
  lemma ValidityDependsOnAddressOnly(p1: Peer, p2: Peer, connection: Connection)
    requires p1.hwAddress == p2.hwAddress
    ensures ConnectionValid(p1, connection) == ConnectionValid(p2, connection)
  {
  }

  /** ConnectionValid with the peer fixed, as a predicate on connections. */
  function ValidFor(peer: Peer): Connection -> bool {
    c => ConnectionValid(peer, c)
  }

  /** nm_p2p_peer_filter_connections: the candidates that are valid for the
      peer, in input order. */
  method FilterConnections(peer: Peer, connections: seq<Connection>) returns (filtered: seq<Connection>)
    ensures filtered == Filter(connections, ValidFor(peer))
    ensures IsSubsequence(filtered, connections)
    ensures |filtered| <= |connections|
    ensures forall c :: c in filtered <==> c in connections && ConnectionValid(peer, c)
    ensures forall c :: multiset(filtered)[c] == if ConnectionValid(peer, c) then multiset(connections)[c] else 0
  {
    var valid := ValidFor(peer);
    filtered := [];
    var i := 0;
    while i < |connections|
      invariant 0 <= i <= |connections|
      invariant filtered + Filter(connections[i..], valid) == Filter(connections, valid)
    {
      FilterTailStep(connections, i, valid);
      if valid(connections[i]) {
        filtered := filtered + [connections[i]];
      }
      i := i + 1;
    }
    assert connections[i..] == [];
    assert forall c :: valid(c) == ConnectionValid(peer, c);
    FilterIsSubsequence(connections, valid);
    forall c ensures multiset(filtered)[c] == if ConnectionValid(peer, c) then multiset(connections)[c] else 0 {
      FilterCounts(connections, valid, c);
    }
  }

  /** Filtering a suffix: its first element, if it passes, then the rest. */
  lemma FilterTailStep<T(!new)>(s: seq<T>, i: nat, p: T -> bool)
    requires i < |s|
    ensures Filter(s[i..], p) == (if p(s[i]) then [s[i]] else []) + Filter(s[i + 1..], p)
  {
    assert s[i..][1..] == s[i + 1..];
  }
}
