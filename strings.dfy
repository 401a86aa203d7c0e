/**
 * The three functions of Go's `strings` package that the hosts-file parser
 * uses: TrimSpace, HasPrefix and Fields, plus Split and Join, which the
 * address syntax is described with. Strings are sequences of characters.
 */
module Strings {

  /** Go's unicode.IsSpace: the Latin-1 spaces and the other White_Space code points. */
  predicate IsSpace(c: char) {
    || c == '\t' || c == '\n' || c == '\U{000B}' || c == '\U{000C}' || c == '\r' || c == ' '
    || c == '\U{0085}' || c == '\U{00A0}' || c == '\U{1680}'
    || ('\U{2000}' <= c <= '\U{200A}')
    || c == '\U{2028}' || c == '\U{2029}' || c == '\U{202F}' || c == '\U{205F}' || c == '\U{3000}'
  }

  predicate NoSpace(s: string) {
    forall i :: 0 <= i < |s| ==> !IsSpace(s[i])
  }

  predicate AllSpace(s: string) {
    forall i :: 0 <= i < |s| ==> IsSpace(s[i])
  }

  /** Drops the leading white space of `s`. */
  function TrimLeft(s: string): string {
    if s != [] && IsSpace(s[0]) then TrimLeft(s[1..]) else s
  }

  /** TrimLeft removes a run of white space from the front and stops at the first other character. */
  lemma {:induction false} TrimLeftSpec(s: string)
    ensures var r := TrimLeft(s);
      && |r| <= |s| && r == s[|s| - |r|..]
      && AllSpace(s[..|s| - |r|])
      && (r != [] ==> !IsSpace(r[0]))
    decreases |s|
  {
    if s != [] && IsSpace(s[0]) {
      TrimLeftSpec(s[1..]);
      var r := TrimLeft(s);
      assert s[..|s| - |r|] == [s[0]] + s[1..][..|s| - 1 - |r|];
    }
  }

  /** Drops the trailing white space of `s`. */
  function TrimRight(s: string): string {
    if s != [] && IsSpace(s[|s| - 1]) then TrimRight(s[..|s| - 1]) else s
  }

  /** TrimRight removes a run of white space from the end and stops at the last other character. */
  lemma {:induction false} TrimRightSpec(s: string)
    ensures var r := TrimRight(s);
      && |r| <= |s| && r == s[..|r|]
      && AllSpace(s[|r|..])
      && (r != [] ==> !IsSpace(r[|r| - 1]))
    decreases |s|
  {
    if s != [] && IsSpace(s[|s| - 1]) {
      TrimRightSpec(s[..|s| - 1]);
      var r := TrimRight(s);
      assert s[|r|..] == s[..|s| - 1][|r|..] + [s[|s| - 1]];
    }
  }

  /** strings.TrimSpace: `s` without the white space at both ends. */
  function TrimSpace(s: string): string {
    TrimRight(TrimLeft(s))
  }

  /**
   * TrimSpace is empty exactly when `s` is all white space; otherwise it
   * starts and ends with a non-space character, it is an infix of `s`,
   * and what it drops on either side is white space.
   */
  lemma TrimSpaceSpec(s: string)
    ensures TrimSpace(s) == [] <==> AllSpace(s)
    ensures TrimSpace(s) != [] ==> !IsSpace(TrimSpace(s)[0]) && !IsSpace(TrimSpace(s)[|TrimSpace(s)| - 1])
    ensures var r := TrimSpace(s);
      exists i :: 0 <= i <= |s| - |r| && r == s[i..i + |r|] && AllSpace(s[..i]) && AllSpace(s[i + |r|..])
  {
    var t := TrimLeft(s);
    var r := TrimRight(t);
    TrimLeftSpec(s);
    TrimRightSpec(t);
    var i := |s| - |t|;
    assert t == s[i..];
    assert r == s[i..i + |r|];
    assert s[i + |r|..] == t[|r|..];
    if r == [] {
      assert t == [];
      assert s[..i] == s;
    }
  }

  /** strings.HasPrefix. */
  predicate HasPrefix(s: string, prefix: string) {
    |prefix| <= |s| && s[..|prefix|] == prefix
  }

  /** Length of the longest prefix of `s` without white space. */
  function SpanNonSpace(s: string): (n: nat)
    ensures n <= |s|
  {
    if s == [] || IsSpace(s[0]) then 0 else 1 + SpanNonSpace(s[1..])
  }

  /** The span is space-free and ends at white space or at the end of `s`. */
  lemma {:induction false} SpanNonSpaceSpec(s: string)
    ensures NoSpace(s[..SpanNonSpace(s)])
    ensures SpanNonSpace(s) < |s| ==> IsSpace(s[SpanNonSpace(s)])
    decreases |s|
  {
    if s != [] && !IsSpace(s[0]) {
      SpanNonSpaceSpec(s[1..]);
      assert s[..SpanNonSpace(s)] == [s[0]] + s[1..][..SpanNonSpace(s[1..])];
    }
  }

  /** strings.Fields: the maximal runs of non-space characters of `s`, in order. */
  function Fields(s: string): seq<string>
    decreases |s|
  {
    if s == [] then []
    else if IsSpace(s[0]) then Fields(s[1..])
    else
      var n := SpanNonSpace(s);
      [s[..n]] + Fields(s[n..])
  }

  /** No field is empty and none holds white space. */
  lemma {:induction false} FieldsAreWords(s: string)
    ensures forall i :: 0 <= i < |Fields(s)| ==> Fields(s)[i] != [] && NoSpace(Fields(s)[i])
    decreases |s|
  {
    if s != [] {
      if IsSpace(s[0]) {
        FieldsAreWords(s[1..]);
      } else {
        var n := SpanNonSpace(s);
        SpanNonSpaceSpec(s);
        FieldsAreWords(s[n..]);
        var r := Fields(s);
        assert r == [s[..n]] + Fields(s[n..]);
        forall i | 0 <= i < |r| ensures r[i] != [] && NoSpace(r[i]) {
          if i > 0 {
            assert r[i] == Fields(s[n..])[i - 1];
          }
        }
      }
    }
  }

  /** `parts` with `sep` between consecutive ones (strings.Join with a one-character separator). */
  function Join(parts: seq<string>, sep: char): string {
    if |parts| == 0 then []
    else if |parts| == 1 then parts[0]
    else parts[0] + [sep] + Join(parts[1..], sep)
  }

  /**
   * strings.Split with a one-character separator: the pieces of `s` between
   * occurrences of `sep`; n separators give n + 1 pieces, some maybe empty.
   */
  function Split(s: string, sep: char): (parts: seq<string>)
    ensures |parts| >= 1
    ensures forall i :: 0 <= i < |parts| ==> sep !in parts[i]
    decreases |s|
  {
    if s == [] then [[]]
    else
      var rest := Split(s[1..], sep);
      if s[0] == sep then [[]] + rest
      else [[s[0]] + rest[0]] + rest[1..]
  }

  /** Joining the pieces of a split gives the string back. */
  lemma {:induction false} JoinSplit(s: string, sep: char)
    ensures Join(Split(s, sep), sep) == s
    decreases |s|
  {
    if s != [] {
      var rest := Split(s[1..], sep);
      JoinSplit(s[1..], sep);
      if s[0] == sep {
        assert Split(s, sep)[1..] == rest;
      } else {
        var parts := Split(s, sep);
        assert parts[1..] == rest[1..];
        if |rest| > 1 {
          assert Join(rest, sep) == rest[0] + [sep] + Join(rest[1..], sep);
          assert s == [s[0]] + s[1..];
        }
      }
    }
  }

  /** Splitting a separator-free piece followed by the rest of a string. */
  lemma {:induction false} SplitPrefix(p: string, sep: char, rest: string)
    requires sep !in p
    ensures Split(p + rest, sep) == [p + Split(rest, sep)[0]] + Split(rest, sep)[1..]
    decreases |p|
  {
    if p != [] {
      assert (p + rest)[1..] == p[1..] + rest;
      assert p[0] != sep;
      SplitPrefix(p[1..], sep, rest);
      assert [p[0]] + (p[1..] + Split(rest, sep)[0]) == p + Split(rest, sep)[0];
    } else {
      var sp := Split(rest, sep);
      assert p + rest == rest;
      assert p + sp[0] == sp[0];
      assert sp == [sp[0]] + sp[1..];
    }
  }

  /** Splitting what Join built from separator-free pieces gives the pieces back. */
  lemma {:induction false} SplitJoin(parts: seq<string>, sep: char)
    requires |parts| >= 1
    requires forall i :: 0 <= i < |parts| ==> sep !in parts[i]
    ensures Split(Join(parts, sep), sep) == parts
    decreases |parts|
  {
    if |parts| == 1 {
      SplitPrefix(parts[0], sep, []);
      assert parts[0] + [] == parts[0];
      assert Split([], sep) == [[]];
    } else {
      var tail := Join(parts[1..], sep);
      SplitJoin(parts[1..], sep);
      assert parts[0] + [sep] + tail == parts[0] + ([sep] + tail);
      SplitPrefix(parts[0], sep, [sep] + tail);
      assert ([sep] + tail)[1..] == tail;
      assert Split([sep] + tail, sep) == [[]] + parts[1..];
      assert parts[0] + [] == parts[0];
      assert parts == [parts[0]] + parts[1..];
    }
  }

  /**
   * Fields undoes a join with single blanks: non-empty, space-free pieces
   * separated by ' ' come back as the same pieces.
   */
  lemma {:induction false} FieldsOfJoin(parts: seq<string>)
    requires forall i :: 0 <= i < |parts| ==> parts[i] != [] && NoSpace(parts[i])
    ensures Fields(Join(parts, ' ')) == parts
    decreases |parts|
  {
    if |parts| > 0 {
      var p := parts[0];
      var s := Join(parts, ' ');
      var rest := if |parts| == 1 then [] else [' '] + Join(parts[1..], ' ');
      assert s == p + rest;
      SpanAcross(p, rest);
      assert s[0] == p[0];
      assert s[..|p|] == p && s[|p|..] == rest;
      if |parts| > 1 {
        FieldsOfJoin(parts[1..]);
        assert rest[1..] == Join(parts[1..], ' ');
      }
      assert parts == [p] + parts[1..];
    }
  }

  /** The non-space span of a space-free word followed by a blank or the end is the word. */
  lemma {:induction false} SpanAcross(p: string, rest: string)
    requires NoSpace(p)
    requires rest == [] || IsSpace(rest[0])
    ensures SpanNonSpace(p + rest) == |p|
    decreases |p|
  {
    if p != [] {
      assert (p + rest)[1..] == p[1..] + rest;
      SpanAcross(p[1..], rest);
    } else {
      assert p + rest == rest;
    }
  }

  /**
   * `seps[0] + parts[0] + seps[1] + ... + parts[n-1] + seps[n]`: words with
   * a separator before, between and after them.
   */
  function Interleave(parts: seq<string>, seps: seq<string>): string
    requires |seps| == |parts| + 1
    decreases |parts|
  {
    if parts == [] then seps[0] else seps[0] + (parts[0] + Interleave(parts[1..], seps[1..]))
  }

  /** Leading white space adds no field. */
  lemma {:induction false} FieldsAfterSpace(w: string, s: string)
    requires AllSpace(w)
    ensures Fields(w + s) == Fields(s)
    decreases |w|
  {
    if w == [] {
      assert w + s == s;
    } else {
      assert (w + s)[0] == w[0];
      assert (w + s)[1..] == w[1..] + s;
      FieldsAfterSpace(w[1..], s);
    }
  }

  /** Trailing white space does not lengthen the first word. */
  lemma {:induction false} SpanBeforeSpace(a: string, w: string)
    requires AllSpace(w)
    ensures SpanNonSpace(a + w) == SpanNonSpace(a)
    decreases |a|
  {
    if a == [] {
      assert a + w == w;
    } else {
      assert (a + w)[0] == a[0];
      if !IsSpace(a[0]) {
        assert (a + w)[1..] == a[1..] + w;
        SpanBeforeSpace(a[1..], w);
      }
    }
  }

  /** Trailing white space adds no field. */
  lemma {:induction false} FieldsBeforeSpace(a: string, w: string)
    requires AllSpace(w)
    ensures Fields(a + w) == Fields(a)
    decreases |a|
  {
    if a == [] {
      assert a + w == w + [];
      FieldsAfterSpace(w, []);
    } else if IsSpace(a[0]) {
      assert (a + w)[0] == a[0];
      assert (a + w)[1..] == a[1..] + w;
      FieldsBeforeSpace(a[1..], w);
    } else {
      var n := SpanNonSpace(a);
      SpanBeforeSpace(a, w);
      assert (a + w)[0] == a[0];
      assert (a + w)[..n] == a[..n];
      assert (a + w)[n..] == a[n..] + w;
      FieldsBeforeSpace(a[n..], w);
    }
  }

  /** Trimming a line does not change its fields. */
  lemma FieldsOfTrimSpace(s: string)
    ensures Fields(TrimSpace(s)) == Fields(s)
  {
    var t := TrimLeft(s);
    TrimLeftSpec(s);
    var k := |s| - |t|;
    assert s == s[..k] + t;
    FieldsAfterSpace(s[..k], t);
    var r := TrimRight(t);
    TrimRightSpec(t);
    assert t == r + t[|r|..];
    FieldsBeforeSpace(r, t[|r|..]);
  }

  /** The first field of a string that starts with a non-space begins with that character. */
  lemma FieldsHead(s: string)
    requires s != [] && !IsSpace(s[0])
    ensures Fields(s) != [] && Fields(s)[0] != [] && Fields(s)[0][0] == s[0]
  {
  }

  /** A space-free word followed by white space or the end is one field. */
  lemma FieldsOfWordThen(p: string, rest: string)
    requires p != [] && NoSpace(p)
    requires rest == [] || IsSpace(rest[0])
    ensures Fields(p + rest) == [p] + Fields(rest)
  {
    SpanAcross(p, rest);
    assert (p + rest)[0] == p[0];
    assert (p + rest)[..|p|] == p && (p + rest)[|p|..] == rest;
  }

  /** Words and separators interleaved start with white space, or are empty, when the first separator is white space. */
  lemma {:induction false} InterleaveStartsWithSpace(parts: seq<string>, seps: seq<string>)
    requires |seps| == |parts| + 1
    requires AllSpace(seps[0]) && (parts != [] ==> seps[0] != [])
    ensures var s := Interleave(parts, seps); s == [] || IsSpace(s[0])
  {
    if parts != [] {
      assert Interleave(parts, seps)[0] == seps[0][0];
    }
  }

  /**
   * Fields undoes any interleaving with white space: non-empty, space-free
   * words separated by non-empty runs of white space, with any white space
   * (or none) before the first and after the last, come back as the words.
   */
  lemma {:induction false} FieldsOfInterleave(parts: seq<string>, seps: seq<string>)
    requires |seps| == |parts| + 1
    requires forall i :: 0 <= i < |parts| ==> parts[i] != [] && NoSpace(parts[i])
    requires forall i :: 0 <= i < |seps| ==> AllSpace(seps[i])
    requires forall i :: 0 < i < |parts| ==> seps[i] != []
    ensures Fields(Interleave(parts, seps)) == parts
    decreases |parts|
  {
    if parts == [] {
      assert seps[0] == seps[0] + [];
      FieldsAfterSpace(seps[0], []);
    } else {
      var rest := Interleave(parts[1..], seps[1..]);
      FieldsOfInterleave(parts[1..], seps[1..]);
      InterleaveStartsWithSpace(parts[1..], seps[1..]);
      FieldsAfterSpace(seps[0], parts[0] + rest);
      FieldsOfWordThen(parts[0], rest);
      assert parts == [parts[0]] + parts[1..];
    }
  }

  /** A line starts with "#" exactly when its first character is '#'. */
  lemma HasPrefixHash(s: string)
    ensures HasPrefix(s, "#") <==> s != [] && s[0] == '#'
  {
    if s != [] && s[0] == '#' {
      assert s[..1] == [s[0]];
    }
  }

  /** A string that starts and ends with non-space characters is its own trimming. */
  lemma TrimSpaceKeeps(s: string)
    requires s != [] && !IsSpace(s[0]) && !IsSpace(s[|s| - 1])
    ensures TrimSpace(s) == s
  {
  }
}
