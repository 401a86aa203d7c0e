/**
 * The hosts-file parser (ReadHostsFile in pkg/config/config.go, and its
 * copy readHostsFile in main.go).
 *
 * A line is trimmed; blank lines and lines starting with '#' are skipped;
 * the rest is split into white-space separated fields, and a line with
 * fewer than two fields is skipped. The first field is the address: when
 * it is an IPv4 address every later field h is written to the table as
 * h + "." and as h with record type A, when it is another IP address with
 * type AAAA, and otherwise the line adds nothing. Later writes replace
 * earlier ones.
 *
 * The file system is an input: the file either cannot be opened, or it is
 * scanned into lines, and the scan may end on an error.
 */
module Config {
  import opened Wrappers
  import opened Strings
  import opened Address
  import opened Record

  /** The table from host name to address record. */
  type Hosts = map<string, DNSRecord>

  /**
   * What opening and scanning the hosts file yields: it cannot be opened,
   * or it was read as `lines` (line ends removed) and the scan stopped on
   * an error after them when `scanFailed`.
   */
  datatype HostsFile = Unopenable | Scanned(lines: seq<string>, scanFailed: bool)

  /** The errors the file system can return to the engine. */
  datatype FileError = OpenError | ScanError | StatError

  /**
   * The switch on net.ParseIP(ip): A when To4 gives an IPv4 address, else
   * AAAA when To16 gives an IPv6 address, else no type.
   */
  function Classify(ip: string): Option<DNSType> {
    var addr := ParseIP(ip);
    if To4(addr) != [] then Some(A)
    else if To16(addr) != [] then Some(AAAA)
    else None
  }

  /** A line that adds to the table: its address field, that field's type and the names after it. */
  datatype Entry = Entry(ip: string, kind: DNSType, names: seq<string>)

  /** What one line of the file contributes; None for a skipped line. */
  function LineEntry(raw: string): Option<Entry> {
    var line := TrimSpace(raw);
    if line == [] || HasPrefix(line, "#") then None
    else
      var fields := Fields(line);
      if |fields| < 2 then None
      else match Classify(fields[0])
        case None => None
        case Some(kind) => Some(Entry(fields[0], kind, fields[1..]))
  }

  /** The keys a list of names is stored under: each name bare and with a trailing dot. */
  function NameKeys(names: seq<string>): set<string> {
    (set h | h in names) + (set h | h in names :: h + ".")
  }

  /** Every record holds an address whose classification is the record's type. */
  predicate WellFormed(m: Hosts) {
    forall k :: k in m ==> Classify(m[k].ip) == Some(m[k].ipType)
  }

  /**
   * The table after writing `rec` under h + "." and then h, for each name h
   * in order: the keys of `names` now map to `rec`, every other key keeps
   * its record.
   */
  function InsertNames(m: Hosts, rec: DNSRecord, names: seq<string>): (r: Hosts)
    ensures forall k :: k in r <==> k in m || k in NameKeys(names)
    ensures forall k :: k in NameKeys(names) ==> r[k] == rec
    ensures forall k :: k in m && k !in NameKeys(names) ==> r[k] == m[k]
    ensures WellFormed(m) && Classify(rec.ip) == Some(rec.ipType) ==> WellFormed(r)
  {
    if names == [] then m
    else
      var h := names[|names| - 1];
      var init := names[..|names| - 1];
      NameKeysSnoc(names);
      InsertNames(m, rec, init)[h + "." := rec][h := rec]
  }

  /** The keys of a list of names are those of all but its last name, plus the last name's two keys. */
  lemma NameKeysSnoc(names: seq<string>)
    requires names != []
    ensures var h := names[|names| - 1];
      NameKeys(names) == NameKeys(names[..|names| - 1]) + {h, h + "."}
  {
    assert names == names[..|names| - 1] + [names[|names| - 1]];
  }

  lemma PrefixSnoc(s: seq<string>, i: nat)
    requires 0 < i <= |s|
    ensures s[..i] == s[..i - 1] + [s[i - 1]]
  {
  }

  lemma InsertNamesStep(m: Hosts, rec: DNSRecord, names: seq<string>, h: string)
    ensures InsertNames(m, rec, names + [h]) == InsertNames(m, rec, names)[h + "." := rec][h := rec]
  {
    assert (names + [h])[..|names|] == names;
  }

  function RecordOf(e: Entry): DNSRecord {
    DNSRecord(e.ip, e.kind)
  }

  /** The table after one more line's entry; a skipped line (None) changes nothing. */
  function ApplyEntry(m: Hosts, entry: Option<Entry>): Hosts {
    match entry
    case None => m
    case Some(e) => InsertNames(m, RecordOf(e), e.names)
  }

  /** The table after one more line. */
  function ApplyLine(m: Hosts, raw: string): Hosts {
    ApplyEntry(m, LineEntry(raw))
  }

  /** The table read from `lines`: the lines applied in order to an empty table. */
  function ParseLines(lines: seq<string>): (m: Hosts)
    ensures WellFormed(m)
  {
    if lines == [] then map[]
    else
      var m := ParseLines(lines[..|lines| - 1]);
      var raw := lines[|lines| - 1];
      assert LineEntry(raw).Some? ==> Classify(LineEntry(raw).value.ip) == Some(LineEntry(raw).value.kind);
      ApplyLine(m, raw)
  }

  /** What reading the hosts file gives: an error, or the table. */
  function Parse(file: HostsFile): Result<Hosts, FileError> {
    match file
    case Unopenable => Failure(OpenError)
    case Scanned(lines, scanFailed) => if scanFailed then Failure(ScanError) else Success(ParseLines(lines))
  }

  /** The table a classified address and its names make of `m`; `m` itself for an unclassifiable address. */
  ghost function AfterNames(m: Hosts, ip: string, names: seq<string>): Hosts {
    match Classify(ip)
    case None => m
    case Some(kind) => InsertNames(m, DNSRecord(ip, kind), names)
  }

  /** Reading one more line applies it to the table read so far. */
  lemma ParseLinesSnoc(lines: seq<string>, n: nat)
    requires n < |lines|
    ensures ParseLines(lines[..n + 1]) == ApplyLine(ParseLines(lines[..n]), lines[n])
  {
    assert lines[..n + 1][..n] == lines[..n];
  }

  /** The entry of a line that passes every test: its first field, that field's type and the rest. */
  lemma EntryOfFields(raw: string, kind: DNSType)
    requires TrimSpace(raw) != [] && !HasPrefix(TrimSpace(raw), "#")
    requires |Fields(TrimSpace(raw))| >= 2
    requires Classify(Fields(TrimSpace(raw))[0]) == Some(kind)
    ensures LineEntry(raw) == Some(Entry(Fields(TrimSpace(raw))[0], kind, Fields(TrimSpace(raw))[1..]))
  {
  }

  /** How one line acts on the table, in the order the parser tests it. */
  lemma LineOfFields(m: Hosts, raw: string)
    ensures var line := TrimSpace(raw);
      if line == [] || HasPrefix(line, "#") || |Fields(line)| < 2 then ApplyLine(m, raw) == m
      else ApplyLine(m, raw) == AfterNames(m, Fields(line)[0], Fields(line)[1..])
  {
    var line := TrimSpace(raw);
    if line == [] || HasPrefix(line, "#") || |Fields(line)| < 2 {
      assert LineEntry(raw) == None;
    } else {
      FieldsLine(m, raw);
    }
  }

  lemma FieldsLine(m: Hosts, raw: string)
    requires TrimSpace(raw) != [] && !HasPrefix(TrimSpace(raw), "#") && |Fields(TrimSpace(raw))| >= 2
    ensures ApplyLine(m, raw) == AfterNames(m, Fields(TrimSpace(raw))[0], Fields(TrimSpace(raw))[1..])
  {
    var fields := Fields(TrimSpace(raw));
    match Classify(fields[0])
    case None =>
      assert LineEntry(raw) == None;
    case Some(kind) =>
      ClassifiedLine(m, raw, kind);
  }

  lemma ClassifiedLine(m: Hosts, raw: string, kind: DNSType)
    requires TrimSpace(raw) != [] && !HasPrefix(TrimSpace(raw), "#") && |Fields(TrimSpace(raw))| >= 2
    requires Classify(Fields(TrimSpace(raw))[0]) == Some(kind)
    ensures ApplyLine(m, raw) == InsertNames(m, DNSRecord(Fields(TrimSpace(raw))[0], kind), Fields(TrimSpace(raw))[1..])
  {
    var fields := Fields(TrimSpace(raw));
    var e := Entry(fields[0], kind, fields[1..]);
    EntryOfFields(raw, kind);
    assert ApplyLine(m, raw) == ApplyEntry(m, Some(e));
  }

  /**
   * ReadHostsFile: an open failure or a scan error gives that error and no
   * table; otherwise the table of all lines.
   */
  method ReadHostsFile(file: HostsFile) returns (r: Result<Hosts, FileError>)
    ensures file.Unopenable? ==> r == Failure(OpenError)
    ensures file.Scanned? && file.scanFailed ==> r == Failure(ScanError)
    ensures file.Scanned? && !file.scanFailed ==> r == Success(ParseLines(file.lines))
  {
    var hosts: Hosts := map[];
    if file.Unopenable? {
      return Failure(OpenError);
    }
    var lines := file.lines;
    for n := 0 to |lines|
      invariant hosts == ParseLines(lines[..n])
    {
      ParseLinesSnoc(lines, n);
      var line := TrimSpace(lines[n]);
      if line == [] || HasPrefix(line, "#") {
        continue;
      }
      var fields := Fields(line);
      if |fields| < 2 {
        continue;
      }
      var ip := fields[0];
      ghost var names := fields[1..];
      ghost var before := hosts;
      for i := 1 to |fields|
        invariant hosts == AfterNames(before, ip, names[..i - 1])
      {
        var hostname := fields[i];
        PrefixSnoc(names, i);
        var ipAddr := ParseIP(ip);
        if To4(ipAddr) != [] {
          hosts := hosts[hostname + "." := DNSRecord(ip, A)];
          hosts := hosts[hostname := DNSRecord(ip, A)];
          InsertNamesStep(before, DNSRecord(ip, A), names[..i - 1], hostname);
        } else if To16(ipAddr) != [] {
          hosts := hosts[hostname + "." := DNSRecord(ip, AAAA)];
          hosts := hosts[hostname := DNSRecord(ip, AAAA)];
          InsertNamesStep(before, DNSRecord(ip, AAAA), names[..i - 1], hostname);
        }
      }
      assert names[..|fields| - 1] == names;
      LineOfFields(before, lines[n]);
    }
    assert lines[..|lines|] == lines;
    if file.scanFailed {
      return Failure(ScanError);
    }
    return Success(hosts);
  }
}
