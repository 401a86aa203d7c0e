/**
 * What the server's operations promise together: the load is all or
 * nothing, a file just loaded does not count as modified, the reload step
 * changes the state only by a successful reload and is idempotent, and a
 * name written in the hosts file is answered after a load.
 */
module ServerProperties {
  import opened Wrappers
  import opened Config
  import opened ConfigProperties
  import opened Dns
  import opened Server

  /** Right after a successful load, the same stat time does not count as a modification. */
  lemma NotModifiedAfterLoad(s: ServerState, file: HostsFile, t: int)
    requires Load(s, file, Some(t)).1.None?
    ensures Modified(Load(s, file, Some(t)).0, Some(t)) == Success(false)
  {
  }

  /** After a successful load, the file counts as modified exactly when a later stat time is strictly greater. */
  lemma ModifiedAfterLoad(s: ServerState, file: HostsFile, t: int, later: int)
    requires Load(s, file, Some(t)).1.None?
    ensures Modified(Load(s, file, Some(t)).0, Some(later)) == Success(later > t)
  {
  }

  /**
   * The reload step changes the state exactly when the file is reported
   * modified, reads without error and stats; then the state is the new
   * table with the second stat time.
   */
  lemma TickReloadsIff(s: ServerState, stat1: Option<int>, file: HostsFile, stat2: Option<int>)
    ensures var reloads := stat1.Some? && stat1.value > s.lastModifiedTime && Parse(file).Success? && stat2.Some?;
      && (reloads ==> Tick(s, stat1, file, stat2) == ServerState(Parse(file).value, stat2.value))
      && (!reloads ==> Tick(s, stat1, file, stat2) == s)
  {
  }

  /** A stat failure, an unchanged file or a failed read leaves the state as it was. */
  lemma TickKeepsStateOnError(s: ServerState, stat1: Option<int>, file: HostsFile, stat2: Option<int>)
    requires stat1.None? || stat1.value <= s.lastModifiedTime || Parse(file).Failure? || stat2.None?
    ensures Tick(s, stat1, file, stat2) == s
  {
    TickReloadsIff(s, stat1, file, stat2);
  }

  /** With the file unchanged between ticks, a second tick changes nothing. */
  lemma TickIdempotent(s: ServerState, t: int, file: HostsFile)
    ensures var once := Tick(s, Some(t), file, Some(t));
      Tick(once, Some(t), file, Some(t)) == once
  {
    var once := Tick(s, Some(t), file, Some(t));
    TickReloadsIff(s, Some(t), file, Some(t));
    TickReloadsIff(once, Some(t), file, Some(t));
  }

  /** Loading and the reload step keep every table one the parser built. */
  lemma LoadKeepsValid(s: ServerState, file: HostsFile, stat: Option<int>)
    requires Valid(s)
    ensures Valid(Load(s, file, stat).0)
  {
  }

  lemma TickKeepsValid(s: ServerState, stat1: Option<int>, file: HostsFile, stat2: Option<int>)
    requires Valid(s)
    ensures Valid(Tick(s, stat1, file, stat2))
  {
    LoadKeepsValid(s, file, stat2);
  }

  /**
   * End to end: after the hosts file is loaded, a query for a name h of
   * line i (bare or with a trailing dot) that no later line redefines is
   * answered NoError with that line's address and type.
   */
  lemma AnsweredAfterLoad(s: ServerState, lines: seq<string>, t: int, i: nat, h: string, request: Message)
    requires i < |lines| && LineEntry(lines[i]).Some? && h in LineEntry(lines[i]).value.names
    requires forall j :: i < j < |lines| ==> !Defines(lines[j], h) && !Defines(lines[j], h + ".")
    requires request.questions != [] && (QueryName(request) == h || QueryName(request) == h + ".")
    ensures var loaded := Load(s, Scanned(lines, false), Some(t)).0;
      var reply := Reply(request, loaded.hosts);
      && reply.responseCode == RCodeNoErr
      && reply.answers == request.answers + [HitAnswer(QueryName(request), RecordOf(LineEntry(lines[i]).value))]
  {
    NameResolvesBothForms(lines, i, h);
  }
}
