/**
 * The DNS server's state and the operations on it: DNSServer in
 * pkg/server/server.go (and its copy in main.go), and the once-a-second
 * reload step of main.go.
 *
 * The server holds the hosts table and the modification time of the
 * hosts file it was read from. Loading replaces both together or neither;
 * the file counts as modified when its modification time is strictly
 * after the stored one. The file system is an input: what opening and
 * scanning the file gives (a HostsFile) and what stat gives (Some(time),
 * or None when it fails). Times are integers; 0 stands for Go's zero time.
 */
module Server {
  import opened Wrappers
  import opened Address
  import opened Record
  import opened Config
  import opened Dns

  /** The part of a DNSServer that its operations read and write. */
  datatype ServerState = ServerState(hosts: Hosts, lastModifiedTime: int)

  /**
   * LoadHostsFile on state `s`: read the file, then stat it; the first
   * error is returned and the state is kept; otherwise the table and the
   * stat time replace the old ones together.
   */
  function Load(s: ServerState, file: HostsFile, stat: Option<int>): (r: (ServerState, Option<FileError>))
    ensures r.1.None? <==> Parse(file).Success? && stat.Some?
    ensures r.1.None? ==> r.0 == ServerState(Parse(file).value, stat.value)
    ensures r.1.Some? ==> r.0 == s
    ensures Parse(file).Failure? ==> r.1 == Some(Parse(file).error)
    ensures Parse(file).Success? && stat.None? ==> r.1 == Some(StatError)
  {
    match Parse(file)
    case Failure(e) => (s, Some(e))
    case Success(hosts) =>
      if stat.None? then (s, Some(StatError)) else (ServerState(hosts, stat.value), None)
  }

  /** IsHostsFileModified: a stat failure is an error; otherwise whether the stat time is strictly after the stored time. */
  function Modified(s: ServerState, stat: Option<int>): (r: Result<bool, FileError>)
    ensures stat.None? <==> r == Failure(StatError)
    ensures stat.Some? ==> r == Success(stat.value > s.lastModifiedTime)
  {
    if stat.None? then Failure(StatError) else Success(stat.value > s.lastModifiedTime)
  }

  /**
   * One tick of the reload loop: `stat1` is what IsHostsFileModified sees,
   * `file` and `stat2` what the LoadHostsFile it may call then sees. An
   * error in either leaves the state as it was.
   */
  function Tick(s: ServerState, stat1: Option<int>, file: HostsFile, stat2: Option<int>): ServerState {
    match Modified(s, stat1)
    case Failure(_) => s
    case Success(modified) => if modified then Load(s, file, stat2).0 else s
  }

  /** Every table a server holds was built by the parser: each record's address classifies as its type. */
  ghost predicate Valid(s: ServerState) {
    WellFormed(s.hosts)
  }

  class DNSServer {
    var hostfile: string
    var port: int
    var hosts: Hosts
    var lastModifiedTime: int

    /** NewDnsServer: the given path and port, an empty table and the zero time. */
    constructor(hostfile: string, port: int)
      ensures this.hostfile == hostfile && this.port == port
      ensures hosts == map[] && lastModifiedTime == 0
      ensures Valid(State())
    {
      this.hostfile := hostfile;
      this.port := port;
      hosts := map[];
      lastModifiedTime := 0;
    }

    function State(): ServerState
      reads this
    {
      ServerState(hosts, lastModifiedTime)
    }

    /** LoadHostsFile, with what opening, scanning and stat-ing the file give as inputs. */
    method LoadHostsFile(file: HostsFile, stat: Option<int>) returns (err: Option<FileError>)
      modifies this`hosts, this`lastModifiedTime
      ensures (State(), err) == Load(old(State()), file, stat)
      ensures old(Valid(State())) ==> Valid(State())
    {
      var r := ReadHostsFile(file);
      if r.Failure? {
        return Some(r.error);
      }
      if stat.None? {
        return Some(StatError);
      }
      hosts := r.value;
      lastModifiedTime := stat.value;
      return None;
    }

    /** InitServer: the first LoadHostsFile. */
    method InitServer(file: HostsFile, stat: Option<int>) returns (err: Option<FileError>)
      modifies this`hosts, this`lastModifiedTime
      ensures (State(), err) == Load(old(State()), file, stat)
      ensures old(Valid(State())) ==> Valid(State())
    {
      err := LoadHostsFile(file, stat);
    }

    /** IsHostsFileModified: (false, the error) when stat fails, else whether the file is newer than the table. */
    method IsHostsFileModified(stat: Option<int>) returns (modified: bool, err: Option<FileError>)
      ensures err.Some? <==> Modified(State(), stat).Failure?
      ensures err.Some? ==> !modified && err == Some(StatError)
      ensures err.None? ==> Modified(State(), stat) == Success(modified)
    {
      if stat.None? {
        return false, Some(StatError);
      }
      modified := stat.value > lastModifiedTime;
      err := None;
    }

    /**
     * handleDNSQuery: the request rewritten field by field into the reply.
     * The request must have a question, as indexing the first one
     * otherwise fails.
     */
    method HandleDNSQuery(request: Message) returns (reply: Message)
      requires request.questions != []
      ensures reply == Reply(request, hosts)
    {
      reply := request;
      var name := request.questions[0].name;
      if name !in hosts {
        reply := reply.(responseCode := RCodeNXDomain);
        reply := reply.(answers := [MissAnswer]);
        return;
      }
      var record := hosts[name];
      var answer := ResourceRecord(name, TypeCode(record.ipType), ClassIN, 0, ParseIP(record.ip));
      reply := reply.(qr := true);
      reply := reply.(anCount := 1);
      reply := reply.(opCode := OpCodeNotify);
      reply := reply.(aa := true);
      reply := reply.(answers := reply.answers + [answer]);
      reply := reply.(responseCode := RCodeNoErr);
    }
  }

  /**
   * The body of the reload goroutine in main: check the file and reload
   * it when it changed; a failed check or a failed reload is logged and
   * leaves the server as it was.
   */
  method ReloadTick(server: DNSServer, stat1: Option<int>, file: HostsFile, stat2: Option<int>)
    modifies server`hosts, server`lastModifiedTime
    ensures server.State() == Tick(old(server.State()), stat1, file, stat2)
  {
    var modified, err := server.IsHostsFileModified(stat1);
    if err.Some? {
      return;
    }
    if modified {
      err := server.LoadHostsFile(file, stat2);
    }
  }
}
