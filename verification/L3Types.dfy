/** The records and constants of the L3 database: inc/mrvl_sai.h and the tables of the
    router, router-interface, neighbour, next-hop and route sources, as values. */
module L3Types {
  import opened Words

  const VR_TABLE_SIZE: nat := 128
  const RIF_TABLE_SIZE: nat := 128
  const MTU_TABLE_SIZE: nat := 8
  const NBR_TABLE_SIZE: nat := 8192
  const NH_TABLE_SIZE: nat := 1024
  const ROUTE_TABLE_SIZE: nat := 8192

  const INVALID_ID: u32 := 0xFFFF_FFFF
  const NBR_TRAP_ID: u32 := 0xFFFF_FFFE
  const NBR_DROP_ID: u32 := 0xFFFF_FFFD
  // Every id below this one is an index into the neighbour table.
  const NBR_RESERVED_ID: u32 := 0xFFFF_FFFD

  const DEFAULT_MTU: u32 := 1514
  const CPU_PORT: u32 := 63
  const HOST_MASK4: nat := 0xFFFF_FFFF

  type VrId = x: nat | x < VR_TABLE_SIZE
  type RifId = x: nat | x < RIF_TABLE_SIZE
  type MtuId = x: nat | x < MTU_TABLE_SIZE
  type NbrId = x: nat | x < NBR_TABLE_SIZE
  type NhId = x: nat | x < NH_TABLE_SIZE

  datatype Option<+T> = None | Some(value: T)

  datatype Status =
    | Success
    | Failure
    | NotSupported
    | InvalidParameter
    | InvalidPortNumber
    | InvalidAttrValue
    | InvalidAttribute
    | MandatoryAttributeMissing
    | ItemNotFound
    | ItemAlreadyExists
    | TableFull

  datatype PacketAction = Forward | Drop | Trap | Log | OtherAction

  /** An address. An IPv6 one is its first four bytes and the twelve behind them. */
  datatype Ip = V4(ip4: u32) | V6(word: u32, tail: u96)

  /** sai_ip_address_t: a family, and a union of the 4 bytes of one with the 16 of the other. `tail` are the twelve
      bytes of the union that an IPv4 address leaves as they happen to be. */
  datatype IpUnion = IpUnion(v4: bool, word: u32, tail: u96)

  /** The address a union stands for. */
  function Addr(ip: IpUnion): Ip { if ip.v4 then V4(ip.word) else V6(ip.word, ip.tail) }

  datatype Prefix = Prefix(addr: Ip, mask: nat)

  datatype RouteKey = RouteKey(vr: u32, dest: Prefix)

  datatype Vr = Vr(valid: bool, rifRefs: nat)

  datatype MtuProfile = MtuProfile(size: u32, refs: nat)

  datatype IntfKind = Port | Vlan | Loopback | OtherKind

  datatype RifConf = RifConf(kind: IntfKind, portVlan: u32, vr: VrId, mtuIdx: MtuId, missAct: PacketAction)

  /** A router interface: `nbrs` and `nhs` are the two index-linked lists it heads, `mtu` the size it
      was created with (which the source does not keep: it keeps only `conf.mtuIdx`). */
  datatype Rif = Rif(valid: bool, conf: RifConf, mtu: u32, nbrs: seq<NbrId>, nhs: seq<NhId>)

  /** A neighbour: `rif` is the interface whose list holds it (which the source does not keep). */
  datatype Nbr = Nbr(used: bool, ip: IpUnion, rif: RifId, nextHop: u32)

  /** A next hop: `nbrId` is a neighbour index or one of the two reserved ids, `routes` its list of routes. */
  datatype Nh = Nh(used: bool, ip: IpUnion, rif: RifId, nbrId: u32, routes: seq<RouteKey>)

  /** A route entry; `nhIdx` means something only when `nhValid`. `follows` says whether `nbrIdx` was taken over from
      the next hop or is still the reserved id the route was created with (which the source does not keep). */
  datatype Route = Route(action: PacketAction, nhValid: bool, nhIdx: NhId, nbrIdx: u32, follows: bool)

  type VrTable = s: seq<Vr> | |s| == VR_TABLE_SIZE witness seq(VR_TABLE_SIZE, _ => NO_VR)
  type MtuTable = s: seq<MtuProfile> | |s| == MTU_TABLE_SIZE witness seq(MTU_TABLE_SIZE, _ => NO_MTU)
  type RifTable = s: seq<Rif> | |s| == RIF_TABLE_SIZE witness seq(RIF_TABLE_SIZE, _ => NO_RIF)
  type NbrTable = s: seq<Nbr> | |s| == NBR_TABLE_SIZE witness seq(NBR_TABLE_SIZE, _ => NO_NBR)
  type NhTable = s: seq<Nh> | |s| == NH_TABLE_SIZE witness seq(NH_TABLE_SIZE, _ => NO_NH)

  // The all-zero records that memset leaves behind.
  const NO_VR := Vr(false, 0)
  const NO_MTU := MtuProfile(0, 0)
  const NO_CONF := RifConf(Port, 0, 0, 0, Drop)
  const NO_RIF := Rif(false, NO_CONF, 0, [], [])
  const NO_IP := IpUnion(true, 0, 0)
  const NO_NBR := Nbr(false, NO_IP, 0, 0)
  const NO_NH := Nh(false, NO_IP, 0, 0, [])

  /** The handle under which an entry sits in the switch's L3 unicast table. A route uses the address of
      its entry, a directly connected host its IPv4 address and interface. */
  datatype Cookie = RouteCookie(key: RouteKey) | HostCookie(ip4: u32, rif: RifId)

  /** What the switch does with packets for (vr, dest): the L3 unicast group to send to (None is the
      invalid group), whether the output port is the CPU, whether the actions are cleared. */
  datatype Flow = Flow(vr: u32, dest: Prefix, group: Option<u32>, toCpu: bool, clear: bool)

  datatype Db = Db(
    vrs: VrTable,
    mtus: MtuTable,
    rifs: RifTable,
    nbrs: NbrTable,
    nhs: NhTable,
    routes: map<RouteKey, Route>,
    flows: map<Cookie, Flow>,
    groups: set<NbrId>
  )

  const EMPTY_DB := Db(
    seq(VR_TABLE_SIZE, _ => NO_VR),
    seq(MTU_TABLE_SIZE, _ => NO_MTU),
    seq(RIF_TABLE_SIZE, _ => NO_RIF),
    seq(NBR_TABLE_SIZE, _ => NO_NBR),
    seq(NH_TABLE_SIZE, _ => NO_NH),
    map[], map[], {})

  // ----- What callers pass -----

  datatype RouteTarget = ToNextHop(nh: NhId) | ToPort(port: u32) | ToRif(rif: u32) | ToUnknown

  datatype RifAttrs = RifAttrs(
    vr: u32,
    kind: IntfKind,
    port: Option<u32>,
    vlan: Option<u32>,
    hasMac: bool,
    v4: bool,
    v6: bool,
    mtu: Option<u32>,
    missAct: Option<PacketAction>
  )

  /** The calls into the switch library that creating and removing an interface makes, and what they return. */
  datatype RifCall =
    | InitTermV4 | AddTermV4 | InitTermV6 | AddTermV6
    | InitVrId | AddVrId | InitControl | AddControl | InitFdb | AddFdb
    | DelTermV4 | DelTermV6 | DelVrId | DelControl | DelFdb

  datatype FpaStatus = FpaOk | FpaAlreadyExist | FpaNotFound | FpaFail

  type RifOracle = RifCall -> FpaStatus

  /** What the bridging table says of the port behind a VLAN and an address: a group to refer to, an entry without one
      (for packets that go to the controller), or that the lookup failed. */
  datatype FdbAnswer = FdbGroup | FdbNoGroup | FdbFails

  /** What the library answers when the group of a neighbour is made. */
  datatype GroupOracle = GroupOracle(fdb: FdbAnswer, added: bool)

  datatype GroupResult = GroupMade | GroupRefused | GroupReported

  datatype Command =
    | CreateVrCmd(v4: Option<bool>, v6: Option<bool>)
    | RemoveVrCmd(vr: u32)
    | CreateRifCmd(attrs: RifAttrs, fpa: RifOracle)
    | RemoveRifCmd(rif: RifId, fpa: RifOracle)
    | CreateNbrCmd(on: u32, ip: IpUnion, nbrAction: Option<PacketAction>, lib: GroupOracle, stale: u32)
    | RemoveNbrCmd(on: u32, ip: IpUnion)
    | RemoveAllNbrsCmd
    | CreateNhCmd(isIp: bool, on: u32, ip: IpUnion)
    | RemoveNhCmd(nh: NhId)
    | CreateRouteCmd(key: RouteKey, priority: Option<u32>, routeAction: Option<PacketAction>,
        target: Option<RouteTarget>)
    | RemoveRouteCmd(key: RouteKey)
    | SetActionCmd(key: RouteKey, action: PacketAction)
    | SetNextHopCmd(key: RouteKey, nh: NhId)
}
