/** `Config::try_from` of the hardworker's user program
    (hardworker/user/src/config.rs, lines 128-182): the `tcp` section is
    required, the target address defaults to the hardworker's address and
    the record size to `data.size` of the constants, the timeout in seconds
    becomes a `Duration`, and the interface is the configured one or the one
    the route table gives for the target address. Reading and parsing the two
    TOML files is not modelled; the route table is given as the result of
    reading it. */
module HardworkerConfig {
  import opened Bytes
  import opened Wrappers
  import opened Route

  /** The parts of `const.toml` this program reads. */
  datatype ConstConfig = ConstConfig(hardworkerIp: u32, dataSize: nat)

  /** The `[tcp]` section of `config.toml`. */
  datatype FileTcpConfig = FileTcpConfig(ifname: Option<string>, ip: Option<u32>, size: Option<nat>)

  datatype FileConfig = FileConfig(timeout: Option<u64>, tcp: Option<FileTcpConfig>)

  /** `std::time::Duration`. */
  datatype Duration = Duration(secs: u64, nanos: nat)

  datatype Config = Config(ifname: string, size: nat, timeout: Option<Duration>)

  function FromSecs(s: u64): (d: Duration)
    ensures d.secs == s && d.nanos == 0
  {
    Duration(s, 0)
  }

  function TryFrom(file: FileConfig, consts: ConstConfig, table: Result<seq<Route>, string>): (r: Result<Config, ConfigError>)
    ensures r == Err(MissingTcp) <==> file.tcp.None?
    ensures r.Ok? ==> r.value.size == file.tcp.value.size.UnwrapOr(consts.dataSize)
    ensures r.Ok? ==> (r.value.timeout.Some? <==> file.timeout.Some?)
  {
    match file.tcp
    case None => Err(MissingTcp)
    case Some(tcp) =>
      var hostIp := tcp.ip.UnwrapOr(consts.hardworkerIp);
      var size := tcp.size.UnwrapOr(consts.dataSize);
      var timeout := match file.timeout case None => None case Some(s) => Some(FromSecs(s));
      match Interface(tcp.ifname, hostIp, table)
      case Err(e) => Err(e)
      case Ok(ifname) => Ok(Config(ifname, size, timeout))
  }

  /** The outcome of `try_from`: no `tcp` section is an error; otherwise the
      size is the file's or else `data.size`, the timeout is the file's in
      whole seconds or absent, a configured interface name is kept as it is,
      and without one the interface is that of a route matching the target
      (the file's address, else the hardworker's) that no matching route
      beats, or an error when none matches or the table cannot be read. */
  lemma TryFromSpec(file: FileConfig, consts: ConstConfig, table: Result<seq<Route>, string>)
    ensures file.tcp.None? <==> TryFrom(file, consts, table) == Err(MissingTcp)
    ensures TryFrom(file, consts, table).Ok? ==>
      var c, tcp := TryFrom(file, consts, table).value, file.tcp.value;
      && c.size == (if tcp.size.Some? then tcp.size.value else consts.dataSize)
      && (c.timeout.Some? <==> file.timeout.Some?)
      && (c.timeout.Some? ==> c.timeout.value.secs == file.timeout.value && c.timeout.value.nanos == 0)
      && (tcp.ifname.Some? ==> c.ifname == tcp.ifname.value)
    ensures file.tcp.Some? && file.tcp.value.ifname.Some? ==> TryFrom(file, consts, table).Ok?
    ensures file.tcp.Some? && file.tcp.value.ifname.None? ==>
      var ip := if file.tcp.value.ip.Some? then file.tcp.value.ip.value else consts.hardworkerIp;
      && (table.Err? ==> TryFrom(file, consts, table) == Err(RouteTable(table.error)))
      && (table.Ok? ==>
            var rs := table.value;
            && (TryFrom(file, consts, table) == Err(NoRoute) <==> forall j :: 0 <= j < |rs| ==> !Matches(ip, rs[j]))
            && (TryFrom(file, consts, table).Ok? ==>
                  exists i :: 0 <= i < |rs| && rs[i].iface == TryFrom(file, consts, table).value.ifname
                    && Matches(ip, rs[i])
                    && forall j :: 0 <= j < |rs| && Matches(ip, rs[j]) ==> !Better(rs[j], rs[i])))
  {
    if file.tcp.Some? {
      var tcp := file.tcp.value;
      InterfaceSpec(tcp.ifname, tcp.ip.UnwrapOr(consts.hardworkerIp), table);
    }
  }

  /** With an interface name configured the route table is never consulted:
      any two tables give the same configuration. */
  lemma ExplicitIfnameIgnoresRoutes(file: FileConfig, consts: ConstConfig, t1: Result<seq<Route>, string>, t2: Result<seq<Route>, string>)
    requires file.tcp.Some? && file.tcp.value.ifname.Some?
    ensures TryFrom(file, consts, t1) == TryFrom(file, consts, t2)
  {
  }
}
