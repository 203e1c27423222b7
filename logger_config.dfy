/** `TcpConfig::try_from` of the logger's user program
    (logger/user/src/config.rs, lines 97-149): the `tcp` section is required;
    the target address, port and TOS default to the logger's address and the
    mark of the constants, the packet size to `data.mtu`; the interface is the
    configured one or the one the route table gives for the target address.
    Reading and parsing the two TOML files is not modelled; the route table
    is given as the result of reading it. */
module LoggerConfig {
  import opened Bytes
  import opened Wrappers
  import opened Route

  /** The parts of `const.toml` this program reads. */
  datatype ConstConfig = ConstConfig(loggerIp: u32, tos: u8, port: u16, mtu: nat)

  /** The `[tcp]` section of `config.toml`. */
  datatype FileTcpConfig = FileTcpConfig(ifname: Option<string>, ip: Option<u32>, port: Option<u16>, tos: Option<u8>, size: Option<nat>)

  datatype FileConfig = FileConfig(tcp: Option<FileTcpConfig>)

  datatype TcpConfig = TcpConfig(ifname: string, loggerIp: u32, port: u16, tos: u8, size: nat)

  function TryFrom(file: FileConfig, consts: ConstConfig, table: Result<seq<Route>, string>): (r: Result<TcpConfig, ConfigError>)
    ensures r == Err(MissingTcp) <==> file.tcp.None?
    ensures r.Ok? ==> r.value.size == file.tcp.value.size.UnwrapOr(consts.mtu)
    ensures r.Ok? ==> r.value.loggerIp == file.tcp.value.ip.UnwrapOr(consts.loggerIp)
  {
    match file.tcp
    case None => Err(MissingTcp)
    case Some(tcp) =>
      var loggerIp := tcp.ip.UnwrapOr(consts.loggerIp);
      var port := tcp.port.UnwrapOr(consts.port);
      var tos := tcp.tos.UnwrapOr(consts.tos);
      var size := tcp.size.UnwrapOr(consts.mtu);
      match Interface(tcp.ifname, loggerIp, table)
      case Err(e) => Err(e)
      case Ok(ifname) => Ok(TcpConfig(ifname, loggerIp, port, tos, size))
  }

  /** The outcome of `try_from`: no `tcp` section is an error; otherwise
      every field the file gives is taken and every one it omits is the
      constant's (the MTU for the size); a configured interface name is kept
      as it is, and without one the interface is that of a route matching the
      target address that no matching route beats, or an error when none
      matches or the table cannot be read. */
  lemma TryFromSpec(file: FileConfig, consts: ConstConfig, table: Result<seq<Route>, string>)
    ensures file.tcp.None? <==> TryFrom(file, consts, table) == Err(MissingTcp)
    ensures TryFrom(file, consts, table).Ok? ==>
      var c, tcp := TryFrom(file, consts, table).value, file.tcp.value;
      && c.loggerIp == (if tcp.ip.Some? then tcp.ip.value else consts.loggerIp)
      && c.port == (if tcp.port.Some? then tcp.port.value else consts.port)
      && c.tos == (if tcp.tos.Some? then tcp.tos.value else consts.tos)
      && c.size == (if tcp.size.Some? then tcp.size.value else consts.mtu)
      && (tcp.ifname.Some? ==> c.ifname == tcp.ifname.value)
    ensures file.tcp.Some? && file.tcp.value.ifname.Some? ==> TryFrom(file, consts, table).Ok?
    ensures file.tcp.Some? && file.tcp.value.ifname.None? ==>
      var ip := if file.tcp.value.ip.Some? then file.tcp.value.ip.value else consts.loggerIp;
      && (table.Err? ==> TryFrom(file, consts, table) == Err(RouteTable(table.error)))
      && (table.Ok? ==>
            var rs := table.value;
            && (TryFrom(file, consts, table) == Err(NoRoute) <==> forall j :: 0 <= j < |rs| ==> !Matches(ip, rs[j]))
            && (TryFrom(file, consts, table).Ok? ==>
                  exists i :: 0 <= i < |rs| && rs[i].iface == TryFrom(file, consts, table).value.ifname
                    && Matches(ip, rs[i])
                    && forall j :: 0 <= j < |rs| && Matches(ip, rs[j]) ==> !Better(rs[j], rs[i])))
  {
    if file.tcp.Some? {
      var tcp := file.tcp.value;
      InterfaceSpec(tcp.ifname, tcp.ip.UnwrapOr(consts.loggerIp), table);
    }
  }

  /** With an interface name configured the route table is never consulted. */
  lemma ExplicitIfnameIgnoresRoutes(file: FileConfig, consts: ConstConfig, t1: Result<seq<Route>, string>, t2: Result<seq<Route>, string>)
    requires file.tcp.Some? && file.tcp.value.ifname.Some?
    ensures TryFrom(file, consts, t1) == TryFrom(file, consts, t2)
  {
  }
}
