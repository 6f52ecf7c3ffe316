/** P9OpenVolume: from an unconfigured volume to an attached root handle. */
module Volumes {
  import opened Ints
  import opened Statuses
  import opened Paths
  import opened Ipv4
  import opened Messages
  import opened Protocol
  import opened WalkFates
  import opened Operations
  import opened Sessions

  /** The fields of P9_VOLUME that matter after startup. */
  datatype Volume = Volume(isConfigured: bool, root: Option<Handle>, mSize: u32)

  /** What P9OpenVolume depends on besides the server's tree: settings, firmware and version reply. */
  datatype Startup = Startup(
    station: Text, subnet: Text, remote: Text,
    uname: seq<u8>, aname: seq<u8>,
    stalePort: u16,           // what StationPort holds before it is set
    staleRemotePort: u16,     // and RemotePort
    hasTcp4: bool,            // P9InitProtocol opens the TCP4 protocol
    configure: Status,        // of the TCP4 protocol's Configure
    connect: Option<Status>,  // of the connection, or None if it already exists
    version: seq<u8>, msize: u32)

  datatype VolumeResult = VolumeResult(status: Status, link: Link, volume: Volume)

  const NO_ADDRESS: seq<u8> := [0, 0, 0, 0]

  function AddressStatus(s: Text): Status { ParseQuad(s, 0, NO_ADDRESS).status }

  /** The addresses and ports of the TCP4 configuration. */
  datatype AccessPoint = AccessPoint(
    station: seq<u8>, stationPort: u16, subnet: seq<u8>, remote: seq<u8>, remotePort: u16)

  function PortOr(p: Port, stale: u16): u16 { match p case Set(v) => v case Unset => stale }

  /** What ConfigureP9 hands to the TCP4 protocol's Configure, if it gets that far. */
  function Offered(u: Startup): Option<AccessPoint> {
    var a, b := ParseQuad(u.station, 0, NO_ADDRESS), ParseQuad(u.subnet, 0, NO_ADDRESS);
    var c := ParseQuad(u.remote, 0, NO_ADDRESS);
    if !u.hasTcp4 || a.status.IsError() || b.status.IsError() || c.status.IsError() then None
    else Some(AccessPoint(a.addr, PortOr(ParsePort(a.rest), u.stalePort), b.addr,
                          c.addr, PortOr(ParsePort(c.rest), u.staleRemotePort)))
  }

  /** ConfigureP9 for a volume that is not configured yet. */
  function Configure(u: Startup): Status {
    if !u.hasTcp4 then Unsupported
    else if AddressStatus(u.station).IsError() then AddressStatus(u.station)
    else if AddressStatus(u.subnet).IsError() then AddressStatus(u.subnet)
    else if AddressStatus(u.remote).IsError() then AddressStatus(u.remote)
    else u.configure
  }

  /** P9Version. The server starts a new session, and an Rlerror is read with too small a size. */
  function Version(l: Link, u: Startup): (Status, Link) {
    var (reply, l') := Exchange(l, Accept(map[]), l.fids);
    if reply != Answer then (ReplyStatus(reply, false), l')
    else (if P9_VERSION <= u.version then Success else Unsupported, l')
  }

  function ServeAttach(tree: Tree, fids: Table, fid: u32): Decision {
    if fid in fids || fid == Protocol.P9_NOFID then Reject(EBADF) else Accept(fids[fid := FidState(tree.root, false)])
  }

  /** P9Attach: status, connection and the root's Qid. */
  function Attach(tree: Tree, l: Link, fid: u32): (Status, Link, Qid) {
    var (reply, l') := Exchange(l, ServeAttach(tree, l.fids, fid), l.fids);
    (ReplyStatus(reply, true), l', if reply == Answer then tree.qid(tree.root) else ZERO_QID)
  }

  /** P9OpenVolume; on success the caller gets volume.root. */
  function OpenVolume(tree: Tree, l: Link, v: Volume, u: Startup): VolumeResult {
    if v.isConfigured then VolumeResult(Success, l, v)
    else if Configure(u).IsError() then VolumeResult(Configure(u), l, v)
    else
      var v1 := v.(isConfigured := true);
      if u.connect.None? then VolumeResult(Success, l, v1)
      else if u.connect.value.IsError() then VolumeResult(u.connect.value, l, v1)
      else
        var v2 := v1.(mSize := P9_MSIZE);
        var (status, l1) := Version(l, u);
        if status.IsError() then VolumeResult(status, l1, v2)
        else
          var v3, fid := v2.(mSize := u.msize), MFid(l1);
          var (attached, l2, qid) := Attach(tree, AfterGetFid(l1), fid);
          if attached.IsError() then VolumeResult(attached, l2, v3)
          else VolumeResult(Success, l2, v3.(root := Some(Handle(fid, qid, 0, false, []))))
  }

  /** The session that starts with the root handle. */
  function Started<H>(l: Link, root: H, h: Handle): Session<H> { Session(l, root, map[root := h]) }

  /** A successful first OpenVolume over a fresh connection gives a safe session with exactly one live fid. */
  lemma OpenVolumeStartsSafely<H(!new)>(tree: Tree, l: Link, v: Volume, u: Startup, root: H)
    requires !v.isConfigured && v.root == None && u.connect.Some? && l.fids == map[] && l.issued < Protocol.P9_NOFID
    requires ErrnosNonZero(l.fates)
    ensures var r := OpenVolume(tree, l, v, u);
      r.status == Success ==>
        && r.volume.root.Some?
        && Safe(tree, Started(r.link, root, r.volume.root.value)) && ErrnosNonZero(r.link.fates)
        && |r.link.fids| == 1 && r.link.fids[r.volume.root.value.fid] == FidState(tree.root, false)
        && !r.volume.root.value.isOpened && r.volume.root.value.position == 0 && r.link.issued == l.issued + 1
  {
    hide Configure;
    var l1 := Version(l, u).1;
    ErrnosTail(l);
    ErrnosTail(AfterGetFid(l1));
    hide ErrnosNonZero;
    var r := OpenVolume(tree, l, v, u);
    if r.status == Success {
      assert l1.fids == map[];
      assert r.link.fids == map[l.issued := FidState(tree.root, false)];
    }
  }

  /** A volume that is open is handed out again with no exchange. */
  lemma ReopenReturnsRoot(tree: Tree, l: Link, v: Volume, u: Startup, again: Startup)
    ensures var r := OpenVolume(tree, l, v, u);
      r.status == Success ==> OpenVolume(tree, r.link, r.volume, again) == r
  {
    hide Version, Attach, Configure;
  }

  /** Configuration succeeds only with three addresses that parse. */
  lemma ConfigureOffers(u: Startup)
    ensures Configure(u) == if Offered(u).Some? then u.configure
                            else if u.hasTcp4 then InvalidParameter else Unsupported
    ensures Offered(u).Some? <==>
      u.hasTcp4 && AddressStatus(u.station) == AddressStatus(u.subnet) == AddressStatus(u.remote) == Success
  {
    hide ParsePort, ParseQuad;
    ParseFails(u.station);
    ParseFails(u.subnet);
    ParseFails(u.remote);
  }

  lemma ParseFails(s: Text)
    ensures AddressStatus(s) in {Success, InvalidParameter}
  {
    ParseFailsFrom(s, 0, NO_ADDRESS);
  }

  lemma {:induction false} ParseFailsFrom(s: Text, index: nat, addr: seq<u8>)
    requires |addr| == 4 && index <= 4
    ensures ParseQuad(s, index, addr).status in {Success, InvalidParameter}
    decreases 4 - index
  {
    hide Number, DigitRun;
    if index < 4 && Number(s) <= 255 {
      var rest := s[DigitRun(s)..];
      ParseFailsFrom(if index < 3 && rest != [] && rest[0] == DOT then rest[1..] else rest, index + 1,
        addr[index := Number(s)]);
    }
  }

  /** Settings printed in decimal reach the TCP4 configuration as they are. */
  lemma PrintedIsOffered(u: Startup, station: seq<u8>, stationPort: u16, subnet: seq<u8>, remote: seq<u8>,
                         remotePort: u16, zeros: seq<nat>)
    requires |station| == 4 && |subnet| == 4 && |remote| == 4 && |zeros| == 5 && u.hasTcp4
    requires u.station == Printed(station, zeros) + ([0x3A] + Padded(zeros[4], stationPort))
    requires u.subnet == Printed(subnet, zeros)
    requires u.remote == Printed(remote, zeros) + ([0x3A] + Padded(zeros[4], remotePort))
    ensures Offered(u) == Some(AccessPoint(station, stationPort, subnet, remote, remotePort))
  {
    hide ParseQuad, ParsePort, Printed, Padded;
    ParseInvertsPrint(station, stationPort, zeros, NO_ADDRESS);
    ParseInvertsPrint(subnet, 0, zeros, NO_ADDRESS);
    ParseInvertsPrint(remote, remotePort, zeros, NO_ADDRESS);
  }

  /** An offered configuration is independent of uninitialised ports exactly when both addresses come with a port. */
  lemma PortsSetIff(u: Startup)
    ensures (forall p, q :: Offered(u.(stalePort := p, staleRemotePort := q)) == Offered(u))
      <==> Offered(u) == None
           || (ParsePort(ParseQuad(u.station, 0, NO_ADDRESS).rest).Set?
               && ParsePort(ParseQuad(u.remote, 0, NO_ADDRESS).rest).Set?)
  {
    hide ParsePort, ParseQuad;
    var p, q := (u.stalePort + 1) % 0x1_0000, (u.staleRemotePort + 1) % 0x1_0000;
    assert p != u.stalePort && q != u.staleRemotePort;
    var other := Offered(u.(stalePort := p, staleRemotePort := q));
  }

  lemma FailureSetsNoRoot(tree: Tree, l: Link, v: Volume, u: Startup)
    requires !v.isConfigured
    ensures var r := OpenVolume(tree, l, v, u);
      && (r.status != Success ==> r.volume.root == v.root)
      && (r.volume.isConfigured <==> Configure(u) == Success)
  {
    hide Version, Attach, Configure;
    var status := Version(l, u).0;
    if Configure(u) == Success && u.connect == Some(Success) && status == Success {
      var l1 := Version(l, u).1;
      var attached := Attach(tree, AfterGetFid(l1), MFid(l1)).0;
    }
  }

  /**
   After a first OpenVolume that fails, a later one reports success at once and without a root
   handle if and only if the TCP configuration had been done, whatever failed after it.
   */
  lemma FailedStartLooksOpen(tree: Tree, l: Link, v: Volume, u: Startup, again: Startup)
    requires !v.isConfigured && v.root == None
    ensures var r := OpenVolume(tree, l, v, u);
      r.status != Success ==>
        && r.volume.root == None
        && (OpenVolume(tree, r.link, r.volume, again) == VolumeResult(Success, r.link, r.volume)
            <==> Configure(u) == Success)
  {
    hide Version, Attach, Configure;
    FailureSetsNoRoot(tree, l, v, u);
    var r := OpenVolume(tree, l, v, u);
    Configured(tree, r.link, r.volume, again);
    if Configure(u) != Success {
      SuccessConfigures(tree, r.link, r.volume, again);
    }
  }

  /** A first OpenVolume that succeeds has a root handle if and only if it made the connection itself. */
  lemma FirstRootIff(tree: Tree, l: Link, v: Volume, u: Startup)
    requires !v.isConfigured && v.root == None
    ensures var r := OpenVolume(tree, l, v, u);
      r.status == Success ==> (r.volume.root.Some? <==> u.connect.Some?)
  {
    hide Version, Attach, Configure;
  }

  lemma SuccessConfigures(tree: Tree, l: Link, v: Volume, u: Startup)
    ensures OpenVolume(tree, l, v, u).status == Success ==> OpenVolume(tree, l, v, u).volume.isConfigured
  {
    hide Version, Attach, Configure;
  }

  lemma Configured(tree: Tree, l: Link, v: Volume, u: Startup)
    ensures v.isConfigured ==> OpenVolume(tree, l, v, u) == VolumeResult(Success, l, v)
  {
  }

  // ----- Exactly when a first start succeeds -----

  /** The TCP4 protocol is there, takes the settings and makes the connection. */
  predicate TcpReady(u: Startup) { Offered(u).Some? && u.configure == Success && u.connect == Some(Success) }

  /** The server answers with the version "9P2000.L", or one that starts so. */
  predicate SpeaksLinux(u: Startup) { [0x39, 0x50, 0x32, 0x30, 0x30, 0x30, 0x2E, 0x4C] <= u.version }

  /** What a first OpenVolume answers, of which next is the next number of the fid counter. */
  function StartStatus(u: Startup, fates: seq<Fate>, next: u32): Status {
    if !u.hasTcp4 then Unsupported
    else if Offered(u).None? then InvalidParameter
    else if u.configure != Success then u.configure
    else if u.connect.None? then Success
    else if u.connect.value != Success then u.connect.value
    else match FateAt(fates, 0)
      case NotSent => TransportError
      case LostReply => TransportError
      case Refused(_) => BufferTooSmall
      case Served(_) => if !SpeaksLinux(u) then Unsupported
                        else Answered(FateAt(fates, 1), if next == 0xFFFF_FFFF then EBADF else 0)
  }

  /** Startup once TCP is ready, exchange by exchange. */
  lemma StartExchanges(tree: Tree, l: Link, u: Startup)
    ensures var (status, l1) := Version(l, u);
      && status == (match FateAt(l.fates, 0)
                    case NotSent => TransportError
                    case LostReply => TransportError
                    case Refused(_) => BufferTooSmall
                    case Served(_) => if SpeaksLinux(u) then Success else Unsupported)
      && l1.issued == l.issued && (status == Success ==> l.fates != [] && l1 == Link(map[], l.issued, l.fates[1..]))
  {
  }

  lemma AttachAnswers(tree: Tree, l: Link, fid: u32)
    requires l.fids == map[]
    ensures var (status, l', qid) := Attach(tree, l, fid);
      && status == Answered(FateAt(l.fates, 0), if fid == 0xFFFF_FFFF then EBADF else 0)
      && (status == Success ==>
            if FateAt(l.fates, 0).Served?
            then l'.fids == map[fid := FidState(tree.root, false)] && qid == tree.qid(tree.root)
            else l'.fids == map[] && qid == ZERO_QID)
  {
  }

  lemma ConnectedStart(tree: Tree, l: Link, v: Volume, u: Startup)
    requires !v.isConfigured && Configure(u) == Success && u.connect == Some(Success)
    ensures var r, (status, l1) := OpenVolume(tree, l, v, u), Version(l, u);
      var (attached, l2, qid) := Attach(tree, AfterGetFid(l1), MFid(l1));
      && (status != Success ==> r == VolumeResult(status, l1, Volume(true, v.root, 0x1_0000)))
      && (status == Success && attached != Success ==> r == VolumeResult(attached, l2, Volume(true, v.root, u.msize)))
      && (status == Success && attached == Success ==>
            r == VolumeResult(Success, l2, Volume(true, Some(Handle(MFid(l1), qid, 0, false, [])), u.msize)))
  {
    hide Version, Attach, Configure, MFid;
  }

  /** The status of a first OpenVolume and the message size, for every script, counter, table and setting. */
  lemma FirstStartAnswers(tree: Tree, l: Link, v: Volume, u: Startup)
    requires !v.isConfigured
    ensures var r := OpenVolume(tree, l, v, u);
      && r.status == StartStatus(u, l.fates, l.issued % 0x1_0000_0000)
      && r.volume.mSize == (if !TcpReady(u) then v.mSize
                            else if FateAt(l.fates, 0).Served? && SpeaksLinux(u) then u.msize else 0x1_0000)
      && (!TcpReady(u) ==> r.link == l && r.volume.root == v.root)
  {
    hide Version, Attach, Configure, Offered, SpeaksLinux;
    ConfigureOffers(u);
    OfferedNeedsTcp(u);
    if Configure(u) == Success && u.connect == Some(Success) {
      ConnectedStart(tree, l, v, u);
      StartExchanges(tree, l, u);
      var l1 := Version(l, u).1;
      if Version(l, u).0 == Success {
        AttachAnswers(tree, AfterGetFid(l1), MFid(l1));
        assert FateAt(l1.fates, 0) == FateAt(l.fates, 1);
      }
    }
  }

  lemma OfferedNeedsTcp(u: Startup)
    ensures Offered(u).Some? ==> u.hasTcp4
  {
    hide ParsePort, ParseQuad;
  }

  /**
   A first OpenVolume succeeds with a root if and only if TCP configures and connects, the version is
   answered by 9P2000.L, and the attach is served with a number other than NOFID, or answered by code
   0. The handle then has the next number of the counter, and is the only fid on the server; with
   code 0 the server knows no fid at all.
   */
  lemma FirstStartIff(tree: Tree, l: Link, v: Volume, u: Startup)
    requires !v.isConfigured && v.root == None
    ensures var r, next, attach := OpenVolume(tree, l, v, u), l.issued % 0x1_0000_0000, FateAt(l.fates, 1);
      && (r.status == Success && r.volume.root.Some? <==>
            TcpReady(u) && FateAt(l.fates, 0).Served? && SpeaksLinux(u)
            && (attach == Refused(0) || (attach.Served? && next != 0xFFFF_FFFF)))
      && (r.status == Success && r.volume.root.Some? ==>
            if attach.Served?
            then r.link.fids == map[next := FidState(tree.root, false)]
                 && r.volume.root == Some(Handle(next, tree.qid(tree.root), 0, false, []))
            else r.link.fids == map[] && r.volume.root == Some(Handle(next, Qid(0, 0, 0), 0, false, [])))
  {
    hide Version, Attach, Configure, Offered, SpeaksLinux;
    ConfigureOffers(u);
    OfferedNeedsTcp(u);
    FirstStartAnswers(tree, l, v, u);
    if TcpReady(u) {
      ConnectedStart(tree, l, v, u);
      StartExchanges(tree, l, u);
      var l1 := Version(l, u).1;
      if Version(l, u).0 == Success {
        AttachAnswers(tree, AfterGetFid(l1), MFid(l1));
        assert FateAt(l1.fates, 0) == FateAt(l.fates, 1);
      }
    } else {
      NotReadyNoRoot(tree, l, v, u);
    }
  }

  lemma NotReadyNoRoot(tree: Tree, l: Link, v: Volume, u: Startup)
    requires !v.isConfigured && !(Configure(u) == Success && u.connect == Some(Success))
    ensures OpenVolume(tree, l, v, u).volume.root == v.root
  {
    hide Version, Attach, Configure;
  }
}
