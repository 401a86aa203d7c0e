/**
 * Properties of the hosts-file parser: which lines count, which key ends
 * up with which record, and what a one-line file of an address and names gives.
 *
 * The facts about the table are first proved over the sequence of what
 * each line contributes (its Entry, or None for a skipped line), then
 * carried over to the lines themselves.
 */
module ConfigProperties {
  import opened Wrappers
  import opened Strings
  import opened Address
  import opened AddressProperties
  import opened Record
  import opened Config

  /** Entry `e` writes key `k`. */
  predicate EntryDefines(e: Option<Entry>, k: string) {
    e.Some? && k in NameKeys(e.value.names)
  }

  /** Line `raw` writes key `k`. */
  predicate Defines(raw: string, k: string) {
    EntryDefines(LineEntry(raw), k)
  }

  /** The table a sequence of line entries builds. */
  function Build(entries: seq<Option<Entry>>): Hosts {
    if entries == [] then map[]
    else ApplyEntry(Build(entries[..|entries| - 1]), entries[|entries| - 1])
  }

  /** `f` applied to each element of `xs`, in order. */
  function MapSeq<A, B>(f: A -> B, xs: seq<A>): (ys: seq<B>)
    ensures |ys| == |xs|
  {
    if xs == [] then [] else MapSeq(f, xs[..|xs| - 1]) + [f(xs[|xs| - 1])]
  }

  lemma {:induction false} MapSeqAt<A, B>(f: A -> B, xs: seq<A>, i: nat)
    requires i < |xs|
    ensures MapSeq(f, xs)[i] == f(xs[i])
    decreases |xs|
  {
    if i < |xs| - 1 {
      MapSeqAt(f, xs[..|xs| - 1], i);
    }
  }

  lemma {:induction false} MapAppend<A, B>(f: A -> B, a: seq<A>, b: seq<A>)
    ensures MapSeq(f, a + b) == MapSeq(f, a) + MapSeq(f, b)
    decreases |b|
  {
    if b == [] {
      assert a + b == a;
    } else {
      var init := b[..|b| - 1];
      MapAppend(f, a, init);
      assert (a + b)[..|a + b| - 1] == a + init;
    }
  }

  /** Line i of a file writes key k exactly when its entry does. */
  lemma DefinesAt(lines: seq<string>, i: nat, k: string)
    requires i < |lines|
    ensures Defines(lines[i], k) <==> EntryDefines(EntriesOf(lines)[i], k)
    ensures EntryDefines(EntriesOf(lines)[i], k) ==> EntriesOf(lines)[i] == LineEntry(lines[i])
  {
    MapSeqAt(LineEntry, lines, i);
  }

  /** What each line of a file contributes to the table. */
  function EntriesOf(lines: seq<string>): seq<Option<Entry>> {
    MapSeq(LineEntry, lines)
  }

  /** Parsing lines is building from their entries. */
  lemma {:induction false} ParseLinesBuild(lines: seq<string>)
    ensures ParseLines(lines) == Build(EntriesOf(lines))
    decreases |lines|
  {
    if lines != [] {
      var pre := lines[..|lines| - 1];
      ParseLinesBuild(pre);
      assert EntriesOf(lines) == EntriesOf(pre) + [LineEntry(lines[|lines| - 1])];
    }
  }

  /** One entry adds exactly the keys it defines and gives them its record; other keys keep theirs. */
  lemma ApplyEntryLookup(m: Hosts, e: Option<Entry>, k: string)
    ensures k in ApplyEntry(m, e) <==> k in m || EntryDefines(e, k)
    ensures EntryDefines(e, k) ==> ApplyEntry(m, e)[k] == RecordOf(e.value)
    ensures !EntryDefines(e, k) && k in m ==> ApplyEntry(m, e)[k] == m[k]
  {
  }

  lemma {:induction false} BuildKeys(es: seq<Option<Entry>>, k: string)
    ensures k in Build(es) <==> exists i :: 0 <= i < |es| && EntryDefines(es[i], k)
    decreases |es|
  {
    if es != [] {
      var pre := es[..|es| - 1];
      BuildKeys(pre, k);
      ApplyEntryLookup(Build(pre), es[|es| - 1], k);
      if exists i :: 0 <= i < |es| && EntryDefines(es[i], k) {
        var i :| 0 <= i < |es| && EntryDefines(es[i], k);
        if i < |pre| {
          assert pre[i] == es[i];
        }
      }
      if exists i :: 0 <= i < |pre| && EntryDefines(pre[i], k) {
        var i :| 0 <= i < |pre| && EntryDefines(pre[i], k);
        assert es[i] == pre[i];
      }
    }
  }

  lemma {:induction false} BuildLastWins(es: seq<Option<Entry>>, k: string, i: nat)
    requires i < |es| && EntryDefines(es[i], k)
    requires forall j :: i < j < |es| ==> !EntryDefines(es[j], k)
    ensures k in Build(es) && Build(es)[k] == RecordOf(es[i].value)
    decreases |es|
  {
    var pre := es[..|es| - 1];
    ApplyEntryLookup(Build(pre), es[|es| - 1], k);
    if i < |pre| {
      forall j | i < j < |pre| ensures !EntryDefines(pre[j], k) {
        assert pre[j] == es[j];
      }
      BuildLastWins(pre, k, i);
    }
  }

  lemma {:induction false} BuildProvenance(es: seq<Option<Entry>>, k: string)
    requires k in Build(es)
    ensures exists i ::
      && 0 <= i < |es| && EntryDefines(es[i], k)
      && (forall j :: i < j < |es| ==> !EntryDefines(es[j], k))
      && Build(es)[k] == RecordOf(es[i].value)
    decreases |es|
  {
    var pre := es[..|es| - 1];
    var last := es[|es| - 1];
    ApplyEntryLookup(Build(pre), last, k);
    if EntryDefines(last, k) {
      BuildLastWins(es, k, |es| - 1);
    } else {
      BuildProvenance(pre, k);
      var i :| && 0 <= i < |pre| && EntryDefines(pre[i], k)
               && (forall j :: i < j < |pre| ==> !EntryDefines(pre[j], k))
               && Build(pre)[k] == RecordOf(pre[i].value);
      assert es[i] == pre[i];
      forall j | i < j < |es| ensures !EntryDefines(es[j], k) {
        if j < |pre| {
          assert es[j] == pre[j];
        }
      }
    }
  }

  lemma {:induction false} BuildSkips(before: seq<Option<Entry>>, after: seq<Option<Entry>>)
    ensures Build(before + [None] + after) == Build(before + after)
    decreases |after|
  {
    if after == [] {
      assert (before + [None] + after)[..|before|] == before;
      assert before + after == before;
    } else {
      var init := after[..|after| - 1];
      BuildSkips(before, init);
      assert (before + [None] + after)[..|before + [None] + after| - 1] == before + [None] + init;
      assert (before + after)[..|before + after| - 1] == before + init;
    }
  }

  /** A key is in the table exactly when some line of the file defines it. */
  lemma ParseLinesKeys(lines: seq<string>, k: string)
    ensures k in ParseLines(lines) <==> exists i :: 0 <= i < |lines| && Defines(lines[i], k)
  {
    var es := EntriesOf(lines);
    ParseLinesBuild(lines);
    BuildKeys(es, k);
    forall i | 0 <= i < |lines| ensures Defines(lines[i], k) <==> EntryDefines(es[i], k) {
      DefinesAt(lines, i, k);
    }
  }

  /** Last write wins: a key's record is the one of the last line that defines it. */
  lemma LastWriteWins(lines: seq<string>, k: string, i: nat)
    requires i < |lines| && Defines(lines[i], k)
    requires forall j :: i < j < |lines| ==> !Defines(lines[j], k)
    ensures k in ParseLines(lines)
    ensures ParseLines(lines)[k] == RecordOf(LineEntry(lines[i]).value)
  {
    var es := EntriesOf(lines);
    ParseLinesBuild(lines);
    DefinesAt(lines, i, k);
    forall j | i < j < |lines| ensures !EntryDefines(es[j], k) {
      DefinesAt(lines, j, k);
    }
    BuildLastWins(es, k, i);
  }

  /**
   * Every key of the table comes from the last line defining it, and holds
   * that line's record.
   */
  lemma KeyProvenance(lines: seq<string>, k: string)
    requires k in ParseLines(lines)
    ensures exists i ::
      && 0 <= i < |lines| && Defines(lines[i], k)
      && (forall j :: i < j < |lines| ==> !Defines(lines[j], k))
      && ParseLines(lines)[k] == RecordOf(LineEntry(lines[i]).value)
  {
    var es := EntriesOf(lines);
    ParseLinesBuild(lines);
    BuildProvenance(es, k);
    var i :| && 0 <= i < |es| && EntryDefines(es[i], k)
             && (forall j :: i < j < |es| ==> !EntryDefines(es[j], k))
             && Build(es)[k] == RecordOf(es[i].value);
    DefinesAt(lines, i, k);
    forall j | i < j < |lines| ensures !Defines(lines[j], k) {
      DefinesAt(lines, j, k);
    }
  }

  /**
   * What a line contributes: its first field verbatim as the address, that
   * address's type, and the remaining fields as the names.
   */
  lemma EntryOfLine(raw: string)
    requires LineEntry(raw).Some?
    ensures var fields := Fields(TrimSpace(raw));
      && |fields| >= 2
      && LineEntry(raw).value.ip == fields[0]
      && LineEntry(raw).value.names == fields[1..]
      && Classify(fields[0]) == Some(LineEntry(raw).value.kind)
      && RecordOf(LineEntry(raw).value) == DNSRecord(fields[0], LineEntry(raw).value.kind)
  {
  }

  /** Why the parser skips a line: blank, comment, fewer than two fields, or an address that is no IP. */
  predicate Skipped(raw: string) {
    var line := TrimSpace(raw);
    || line == []
    || HasPrefix(line, "#")
    || |Fields(line)| < 2
    || Classify(Fields(line)[0]) == None
  }

  lemma SkippedHasNoEntry(raw: string)
    requires Skipped(raw)
    ensures LineEntry(raw) == None
  {
  }

  /**
   * A skipped line, wherever it stands, neither adds an entry nor makes
   * the parse fail: the table is the one of the file without it.
   */
  lemma SkippedLineIgnored(before: seq<string>, raw: string, after: seq<string>)
    requires Skipped(raw)
    ensures ParseLines(before + [raw] + after) == ParseLines(before + after)
    ensures Parse(Scanned(before + [raw] + after, false)) == Success(ParseLines(before + after))
  {
    SkippedHasNoEntry(raw);
    MapSeqAt(LineEntry, [raw], 0);
    assert EntriesOf([raw]) == [None];
    ParseLinesBuild(before + [raw] + after);
    ParseLinesBuild(before + after);
    MapAppend(LineEntry, before, [raw]);
    MapAppend(LineEntry, before + [raw], after);
    MapAppend(LineEntry, before, after);
    BuildSkips(EntriesOf(before), EntriesOf(after));
  }

  /**
   * A name h on a line with an IP address resolves, bare and with a
   * trailing dot, to that line's address and type, unless a later line
   * redefines it.
   */
  lemma NameResolvesBothForms(lines: seq<string>, i: nat, h: string)
    requires i < |lines| && LineEntry(lines[i]).Some? && h in LineEntry(lines[i]).value.names
    requires forall j :: i < j < |lines| ==> !Defines(lines[j], h) && !Defines(lines[j], h + ".")
    ensures h in ParseLines(lines) && h + "." in ParseLines(lines)
    ensures ParseLines(lines)[h] == ParseLines(lines)[h + "."] == RecordOf(LineEntry(lines[i]).value)
  {
    assert h in NameKeys(LineEntry(lines[i]).value.names);
    assert h + "." in NameKeys(LineEntry(lines[i]).value.names);
    LastWriteWins(lines, h, i);
    LastWriteWins(lines, h + ".", i);
  }

  /** An accepted address is a non-empty run of address characters, none of them a space or '#'. */
  lemma AddressIsOneField(ip: string)
    requires Classify(ip).Some?
    ensures ip != [] && NoSpace(ip) && ip[0] != '#'
  {
    AcceptedAddressChars(ip);
    assert ParseIP(ip) != [];
    forall j | 0 <= j < |ip| ensures !IsSpace(ip[j]) {
      assert IsAddressChar(ip[j]);
    }
    assert IsAddressChar(ip[0]);
  }

  /** The table of a one-line file whose line has entry e. */
  lemma ParseOneLine(raw: string, e: Entry)
    requires LineEntry(raw) == Some(e)
    ensures ParseLines([raw]) == InsertNames(map[], RecordOf(e), e.names)
  {
    assert ParseLines([raw]) == ApplyLine(ParseLines([]), raw);
  }

  /**
   * A line made of an address and one or more names, separated by runs of
   * white space (spaces, tabs, ...) and with any white space before and
   * after, contributes that address with its type and those names.
   */
  lemma AddressAndNamesLine(ip: string, names: seq<string>, seps: seq<string>, kind: DNSType)
    requires Classify(ip) == Some(kind)
    requires names != [] && forall i :: 0 <= i < |names| ==> names[i] != [] && NoSpace(names[i])
    requires |seps| == |names| + 2 && forall i :: 0 <= i < |seps| ==> AllSpace(seps[i])
    requires forall i :: 0 < i <= |names| ==> seps[i] != []
    ensures LineEntry(Interleave([ip] + names, seps)) == Some(Entry(ip, kind, names))
  {
    var parts := [ip] + names;
    var line := Interleave(parts, seps);
    AddressIsOneField(ip);
    assert forall i :: 1 <= i < |parts| ==> parts[i] == names[i - 1];
    FieldsOfInterleave(parts, seps);
    FieldsOfTrimSpace(line);
    var t := TrimSpace(line);
    assert t != [];
    TrimSpaceSpec(line);
    FieldsHead(t);
    HasPrefixHash(t);
    EntryOfFields(line, kind);
    assert parts[1..] == names;
  }

  /**
   * Round trip through the file format: a line of an address and names,
   * laid out with any white space as above, makes every name h resolve, as
   * h and as h + ".", to the address with its record type.
   */
  lemma HostsLineRoundTrip(ip: string, names: seq<string>, seps: seq<string>, kind: DNSType)
    requires Classify(ip) == Some(kind)
    requires names != [] && forall i :: 0 <= i < |names| ==> names[i] != [] && NoSpace(names[i])
    requires |seps| == |names| + 2 && forall i :: 0 <= i < |seps| ==> AllSpace(seps[i])
    requires forall i :: 0 < i <= |names| ==> seps[i] != []
    ensures var t := ParseLines([Interleave([ip] + names, seps)]);
      forall h :: h in names ==> h in t && h + "." in t && t[h] == t[h + "."] == DNSRecord(ip, kind)
  {
    var line := Interleave([ip] + names, seps);
    AddressAndNamesLine(ip, names, seps, kind);
    ParseOneLine(line, Entry(ip, kind, names));
    var t := ParseLines([line]);
    forall h | h in names
      ensures h in t && h + "." in t && t[h] == t[h + "."] == DNSRecord(ip, kind)
    {
      assert h in NameKeys(names) && h + "." in NameKeys(names);
    }
  }

  /** Classify gives A exactly for the addresses To4 accepts. */
  lemma ClassifyIPv4(s: string)
    ensures Classify(s) == Some(A) <==> ParseIP(s) != [] && ParseIP(s)[..12] == V4InV6Prefix
  {
  }

  /** Classify gives AAAA exactly for the other addresses net.ParseIP accepts. */
  lemma ClassifyIPv6(s: string)
    ensures Classify(s) == Some(AAAA) <==> ParseIP(s) != [] && ParseIP(s)[..12] != V4InV6Prefix
  {
  }

  /**
   * The loopback address ::1 is classified AAAA, as in the line
   * "::1 localhost6". As in LoopbackIsIPv6, the address is a parameter fixed
   * by the precondition, so that the verifier does not evaluate the parser
   * on a literal.
   */
  lemma LoopbackIsAAAA(s: string)
    requires s == "::1"
    ensures Classify(s) == Some(AAAA)
  {
    LoopbackIsIPv6(s);
    ClassifyIPv6(s);
    var ip := ParseIP(s);
    assert ip[..12] != V4InV6Prefix by {
      assert ip[..12][10] == 0;
    }
  }

  /**
   * Eight groups in the full colon form are classified A exactly when their
   * bytes start with the IPv4-in-IPv6 prefix (groups 0, 0, 0, 0, 0, 0xffff),
   * and AAAA otherwise.
   */
  lemma FullColonFormClass(g: seq<nat>)
    requires |g| == 8 && forall i :: 0 <= i < 8 ==> g[i] < 0x1_0000
    ensures Classify(FormatIPv6(g)) == (if GroupBytes(g)[..12] == V4InV6Prefix then Some(A) else Some(AAAA))
  {
    ParseFormatIPv6(g);
    ClassifyIPv4(FormatIPv6(g));
    ClassifyIPv6(FormatIPv6(g));
  }

  /** Every dotted quad is classified A. */
  lemma DottedQuadIsA(o: seq<Byte>)
    requires |o| == 4
    ensures Classify(FormatIPv4(o)) == Some(A)
  {
    DottedQuadIsIPv4(o);
  }

  /** The IPv4 test comes first: an IPv4 address in IPv6 notation is classified A, not AAAA. */
  lemma MappedIPv4IsA(o: seq<Byte>)
    requires |o| == 4
    ensures Classify("::ffff:" + FormatIPv4(o)) == Some(A)
  {
    MappedIPv4IsIPv4(o);
  }
}
