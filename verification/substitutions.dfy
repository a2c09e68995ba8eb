/**
 How the ES-module entry point turns its options into an ordered list of
 substitution rules: the `-m`/`-r` pair, then one rule per line of the
 substitutions file, then one per `-s` value. A rule string with `|||` is a
 replacement (pattern `|||` replacement); without it, it is a grep rule,
 inverted by a leading `!`, where `\!` escapes a literal leading `!`.

 A compiled RegExp is abstracted to its source text and flag string; the
 regex engine itself is not modelled.
 */
module Substitutions {
  import opened Text

  datatype Regex = Regex(pattern: string, flags: string)

  datatype Rule =
    | Replace(regex: Regex, replacement: string)
    | Grep(regex: Regex, invert: bool)
  {
    function Pattern(): string {
      regex.pattern
    }
  }

  /** The options the rule builder reads. An absent string option is `None`. */
  datatype Options = Options(
    matchPattern: Option<string>,
    replacement: Option<string>,
    noCase: bool,
    oneLine: bool,
    subs: seq<string>)

  // ---------------------------------------------------------------------
  // Flags

  /** The flag string every rule's RegExp is built with. */
  function Flags(noCase: bool, oneLine: bool): (f: string)
    ensures |f| > 0 && f[0] == 'g'
    ensures 'i' in f <==> noCase
    ensures 'm' in f <==> !oneLine
    ensures forall j :: 0 <= j < |f| ==> f[j] in "gim"
    ensures forall j, k :: 0 <= j < k < |f| ==> f[j] != f[k]
    ensures forall j, k :: 0 <= j < |f| && 0 <= k < |f| && f[j] == 'm' && f[k] == 'i' ==> k < j
  {
    "g" + (if noCase then "i" else "") + (if oneLine then "" else "m")
  }

  // ---------------------------------------------------------------------
  // The `|||` separator

  /** `|||` occurs at index `j` of `s`. */
  predicate IsSepAt(s: string, j: int) {
    0 <= j && j + 3 <= |s| && s[j] == '|' && s[j + 1] == '|' && s[j + 2] == '|'
  }

  /** `/[|]{3}/.test(s)`. */
  predicate HasSep(s: string) {
    exists j :: 0 <= j < |s| && IsSepAt(s, j)
  }

  /** `p` is the first separator at or after `from`. */
  predicate FirstSepFrom(s: string, from: int, p: int) {
    from <= p && IsSepAt(s, p) && forall j :: from <= j < p ==> !IsSepAt(s, j)
  }

  /** No separator starts at or after `from`. */
  predicate NoSepFrom(s: string, from: int) {
    forall j :: from <= j < |s| ==> !IsSepAt(s, j)
  }

  /** The leftmost separator at or after `from`, as the regex scan finds it. */
  function FindSep(s: string, from: nat): (r: Option<nat>)
    requires from <= |s|
    ensures r.Some? ==> FirstSepFrom(s, from, r.value)
    ensures r.None? ==> NoSepFrom(s, from)
    decreases |s| - from
  {
    if from + 3 > |s| then None
    else if IsSepAt(s, from) then Some(from)
    else FindSep(s, from + 1)
  }

  /** `s.split(/[|]{3}/, 2)`: the text before the first separator and the text up to the next one. */
  function SplitLimit2(s: string): (parts: seq<string>)
    ensures 1 <= |parts| <= 2
  {
    match FindSep(s, 0)
    case None => [s]
    case Some(p) =>
      match FindSep(s, p + 3)
      case None => [s[..p], s[p + 3..]]
      case Some(q) => [s[..p], s[p + 3..q]]
  }

  /**
   `pat` and `rep` are what splitting `sub` at its first separator, and the
   rest at the following one (or the end), yields.
   */
  predicate ReplaceParts(sub: string, pat: string, rep: string) {
    var p := |pat|;
    var q := p + 3 + |rep|;
    && q <= |sub|
    && sub[..p] == pat
    && sub[p + 3..q] == rep
    && FirstSepFrom(sub, 0, p)
    && (FirstSepFrom(sub, p + 3, q) || (q == |sub| && NoSepFrom(sub, p + 3)))
  }

  // ---------------------------------------------------------------------
  // Grep rules and the escaped `!`

  /** The number of backslashes `s` starts with. */
  function BackslashRun(s: string): (k: nat)
    ensures k <= |s|
    ensures forall j :: 0 <= j < k ==> s[j] == '\\'
    ensures k < |s| ==> s[k] != '\\'
  {
    if |s| > 0 && s[0] == '\\' then 1 + BackslashRun(s[1..]) else 0
  }

  /** `s` starts with one or more backslashes followed by `!`: what `^\\(\\*)!` matches. */
  predicate EscapedBang(s: string) {
    exists k :: 1 <= k < |s| && s[k] == '!' && forall j :: 0 <= j < k ==> s[j] == '\\'
  }

  /** `s.replace(/^\\(\\*)!/, '$1!')`: exactly one backslash is removed before an escaped `!`. */
  function UnescapeBang(s: string): (r: string)
    ensures EscapedBang(s) ==> r == s[1..]
    ensures !EscapedBang(s) ==> r == s
  {
    var k := BackslashRun(s);
    if 1 <= k < |s| && s[k] == '!' then
      assert EscapedBang(s);
      assert s[1..k] + "!" + s[k + 1..] == s[1..];
      s[1..k] + "!" + s[k + 1..]
    else
      assert !EscapedBang(s) by {
        forall k' | 1 <= k' < |s| && s[k'] == '!'
          ensures 0 <= k < k' && s[k] != '\\'
        {
        }
      }
      s
  }

  // ---------------------------------------------------------------------
  // One rule string

  /**
   `processSub`: a replacement rule exactly when the string contains `|||`,
   split at the first separator and cut at the next; else a grep rule,
   inverted by a leading `!` (which is dropped), with one backslash removed
   from an escaped leading `!`.
   */
  function ProcessSub(sub: string, noCase: bool, oneLine: bool): (r: Rule)
    ensures r.regex.flags == Flags(noCase, oneLine)
    ensures r.Replace? <==> HasSep(sub)
    ensures r.Replace? ==> ReplaceParts(sub, r.regex.pattern, r.replacement)
    ensures r.Grep? ==> (r.invert <==> |sub| > 0 && sub[0] == '!')
    ensures r.Grep? && r.invert ==> r.regex.pattern == sub[1..]
    ensures r.Grep? && !r.invert && EscapedBang(sub) ==> r.regex.pattern == sub[1..]
    ensures r.Grep? && !r.invert && !EscapedBang(sub) ==> r.regex.pattern == sub
  {
    var flags := Flags(noCase, oneLine);
    match FindSep(sub, 0)
    case Some(p) =>
      var parts := SplitLimit2(sub);
      assert parts[0] == sub[..p];
      Replace(Regex(parts[0], flags), parts[1])
    case None =>
      if |sub| > 0 && sub[0] == '!' then Grep(Regex(sub[1..], flags), true)
      else Grep(Regex(UnescapeBang(sub), flags), false)
  }

  /** There is only one first separator. */
  lemma {:induction false} FirstSepUnique(s: string, from: int, p: int, p': int)
    requires FirstSepFrom(s, from, p) && FirstSepFrom(s, from, p')
    ensures p == p'
  {
  }

  /** Text put in front of separator-free text adds no separator inside it. */
  lemma {:induction false} NoSepInSuffix(a: string, b: string)
    requires !HasSep(b)
    ensures forall j :: |a| <= j < |a + b| ==> !IsSepAt(a + b, j)
  {
    forall j | |a| <= j < |a + b|
      ensures !IsSepAt(a + b, j)
    {
      var i := j - |a|;
      assert !IsSepAt(b, i);
      if j + 3 <= |a + b| {
        assert (a + b)[j] == b[i] && (a + b)[j + 1] == b[i + 1] && (a + b)[j + 2] == b[i + 2];
      }
    }
  }

  /**
   Writing a replacement rule as `pattern|||replacement` and processing it
   gives back that rule, provided neither part contains `|||` and the
   pattern does not end with `|` (which would move the first separator).
   */
  lemma {:induction false} ReplaceRuleRoundTrip(pat: string, rep: string, noCase: bool, oneLine: bool)
    requires !HasSep(pat) && !HasSep(rep)
    requires |pat| == 0 || pat[|pat| - 1] != '|'
    ensures ProcessSub(pat + "|||" + rep, noCase, oneLine) == Replace(Regex(pat, Flags(noCase, oneLine)), rep)
  {
    var sub := pat + "|||" + rep;
    var p := |pat|;
    assert IsSepAt(sub, p);
    assert HasSep(sub);
    forall j | 0 <= j < p
      ensures !IsSepAt(sub, j)
    {
      if j + 3 <= p {
        assert !IsSepAt(pat, j);
        assert sub[j] == pat[j] && sub[j + 1] == pat[j + 1] && sub[j + 2] == pat[j + 2];
      } else {
        assert sub[p - 1] == pat[p - 1];
      }
    }
    assert sub == (pat + "|||") + rep;
    NoSepInSuffix(pat + "|||", rep);
    var r := ProcessSub(sub, noCase, oneLine);
    assert FirstSepFrom(sub, 0, p);
    FirstSepUnique(sub, 0, p, |r.regex.pattern|);
    assert sub[..p] == pat;
    assert sub[p + 3..] == rep;
  }

  /** How a user writes a grep rule for `pat`: `!` to invert, one extra `\` to keep a leading `!` literal. */
  function GrepRuleText(pat: string, invert: bool): string {
    if invert then "!" + pat
    else
      var k := BackslashRun(pat);
      if k < |pat| && pat[k] == '!' then "\\" + pat else pat
  }

  /** The written form of a separator-free pattern has no separator either. */
  lemma {:induction false} GrepRuleTextNoSep(pat: string, invert: bool)
    requires !HasSep(pat)
    ensures !HasSep(GrepRuleText(pat, invert))
  {
    var sub := GrepRuleText(pat, invert);
    var prefix := if sub == pat then "" else [sub[0]];
    assert sub == prefix + pat;
    NoSepInSuffix(prefix, pat);
    forall j | 0 <= j < |prefix|
      ensures !IsSepAt(sub, j)
    {
      assert sub[j] == prefix[j] && prefix[0] != '|';
    }
  }

  /** A pattern that does not start with backslashes then `!` is not an escaped `!`. */
  lemma {:induction false} NotEscapedBang(pat: string)
    requires var k := BackslashRun(pat); !(k < |pat| && pat[k] == '!')
    ensures !EscapedBang(pat)
  {
    var k := BackslashRun(pat);
    forall k' | 1 <= k' < |pat| && pat[k'] == '!'
      ensures 0 <= k < k' && pat[k] != '\\'
    {
    }
  }

  /** Processing the written form of a grep rule gives back that grep rule. */
  lemma {:induction false} GrepRuleRoundTrip(pat: string, invert: bool, noCase: bool, oneLine: bool)
    requires !HasSep(pat)
    ensures ProcessSub(GrepRuleText(pat, invert), noCase, oneLine) == Grep(Regex(pat, Flags(noCase, oneLine)), invert)
  {
    var sub := GrepRuleText(pat, invert);
    GrepRuleTextNoSep(pat, invert);
    if invert {
      assert sub[1..] == pat;
    } else {
      var k := BackslashRun(pat);
      if k < |pat| && pat[k] == '!' {
        assert sub[k + 1] == '!' && forall j :: 0 <= j < k + 1 ==> sub[j] == '\\';
        assert EscapedBang(sub);
        assert sub[1..] == pat;
      } else {
        NotEscapedBang(pat);
        assert |pat| > 0 ==> pat[0] != '!';
      }
    }
  }

  // ---------------------------------------------------------------------
  // The substitutions file

  predicate IsLineBreak(c: char) {
    c == '\r' || c == '\n'
  }

  /** The characters `String.prototype.trim` removes: white space and line terminators. */
  predicate IsJsWhitespace(c: char) {
    || c == '\t' || c == '\n' || c == '\U{000B}' || c == '\U{000C}' || c == '\r' || c == ' '
    || c == '\U{00A0}' || c == '\U{1680}' || ('\U{2000}' <= c <= '\U{200A}')
    || c == '\U{2028}' || c == '\U{2029}' || c == '\U{202F}' || c == '\U{205F}'
    || c == '\U{3000}' || c == '\U{FEFF}'
  }

  /** `s.trim().length > 0`. */
  predicate HasContent(s: string) {
    exists i :: 0 <= i < |s| && !IsJsWhitespace(s[i])
  }

  /** `s.replace(/[\r\n]+$/, '')`: the maximal run of CR and LF at the end is removed. */
  function StripTrailingBreaks(s: string): (r: string)
    ensures |r| <= |s| && r == s[..|r|]
    ensures forall i :: |r| <= i < |s| ==> IsLineBreak(s[i])
    ensures |r| == 0 || !IsLineBreak(r[|r| - 1])
  {
    if |s| > 0 && IsLineBreak(s[|s| - 1]) then StripTrailingBreaks(s[..|s| - 1]) else s
  }

  /** `s.split(/\r?\n/)`: cut at every LF, taking a CR just before it along with it. */
  function SplitCrLf(s: string): (lines: seq<string>)
    ensures |lines| >= 1
    ensures forall i :: 0 <= i < |lines| ==> '\n' !in lines[i]
    decreases |s|
  {
    var k := LineEnd(s);
    LineEndFirst(s);
    if k == |s| then
      [s]
    else if k > 0 && s[k - 1] == '\r' then
      [s[..k - 1]] + SplitCrLf(s[k + 1..])
    else
      [s[..k]] + SplitCrLf(s[k + 1..])
  }

  /** `lines.filter((s) => s.length > 0)`. */
  function NonEmpty(lines: seq<string>): seq<string> {
    if |lines| == 0 then []
    else if |lines[0]| > 0 then [lines[0]] + NonEmpty(lines[1..])
    else NonEmpty(lines[1..])
  }

  /**
   The filter keeps only non-empty strings, each taken from the list, and
   keeps every non-empty string of the list; a one-element list is kept
   exactly when its string is non-empty.
   */
  lemma {:induction false} NonEmptySpec(lines: seq<string>)
    ensures var r := NonEmpty(lines);
      |r| <= |lines|
      && (forall i :: 0 <= i < |r| ==> |r[i]| > 0)
      && (forall i :: 0 <= i < |r| ==> r[i] in lines)
      && (forall i :: 0 <= i < |lines| && |lines[i]| > 0 ==> lines[i] in r)
    ensures |lines| == 1 ==> NonEmpty(lines) == if |lines[0]| > 0 then lines else []
  {
    if |lines| > 0 {
      var tail := lines[1..];
      NonEmptySpec(tail);
      var r := NonEmpty(lines);
      var rt := NonEmpty(tail);
      assert r == (if |lines[0]| > 0 then [lines[0]] else []) + rt;
      forall i | 0 <= i < |rt| ensures rt[i] in lines {
        assert rt[i] in tail;
        var m :| 0 <= m < |tail| && tail[m] == rt[i];
        assert lines[m + 1] == rt[i];
      }
      forall i | 0 <= i < |lines| && |lines[i]| > 0 ensures lines[i] in r {
        if i > 0 {
          assert tail[i - 1] == lines[i];
          assert lines[i] in rt;
        }
      }
    }
  }

  /** The filter works piecewise: filtering two lists joined is joining them filtered, so the order is kept. */
  lemma {:induction false} NonEmptyAppend(a: seq<string>, b: seq<string>)
    ensures NonEmpty(a + b) == NonEmpty(a) + NonEmpty(b)
  {
    if |a| == 0 {
      assert a + b == b;
    } else {
      assert (a + b)[0] == a[0];
      assert (a + b)[1..] == a[1..] + b;
      NonEmptyAppend(a[1..], b);
    }
  }

  /** Filtering a list with no empty string leaves it as it is. */
  lemma {:induction false} NonEmptyKeepsAll(lines: seq<string>)
    requires forall i :: 0 <= i < |lines| ==> |lines[i]| > 0
    ensures NonEmpty(lines) == lines
  {
    if |lines| > 0 {
      assert |lines[0]| > 0;
      NonEmptyKeepsAll(lines[1..]);
      assert lines == [lines[0]] + lines[1..];
    }
  }

  /** The rule strings read from the substitutions file's text. */
  function SubsFileLines(content: string): seq<string> {
    if HasContent(content) then NonEmpty(SplitCrLf(StripTrailingBreaks(content))) else []
  }

  /** The rule strings read from a file are non-empty and LF-free; a blank file gives none. */
  lemma {:induction false} SubsFileLinesShape(content: string)
    ensures var lines := SubsFileLines(content);
      (forall i :: 0 <= i < |lines| ==> |lines[i]| > 0 && '\n' !in lines[i])
      && (!HasContent(content) ==> lines == [])
  {
    if HasContent(content) {
      var split := SplitCrLf(StripTrailingBreaks(content));
      NonEmptySpec(split);
      var lines := NonEmpty(split);
      forall i | 0 <= i < |lines| ensures '\n' !in lines[i] {
        assert lines[i] in split;
      }
    }
  }

  /** Lines joined with a line separator. */
  function JoinLines(lines: seq<string>, sep: string): string {
    if |lines| == 0 then ""
    else if |lines| == 1 then lines[0]
    else lines[0] + sep + JoinLines(lines[1..], sep)
  }

  /** A line as written in the file, possibly blank: no LF inside and no CR at its end. */
  predicate IsWrittenLine(line: string) {
    '\n' !in line && (|line| == 0 || line[|line| - 1] != '\r')
  }

  /** A written line that is not blank. */
  predicate IsFileLine(line: string) {
    |line| > 0 && IsWrittenLine(line)
  }

  lemma {:induction false} JoinEndsWithLastLine(lines: seq<string>, sep: string)
    requires |lines| > 0
    ensures |JoinLines(lines, sep)| >= |lines[|lines| - 1]|
    ensures JoinLines(lines, sep)[|JoinLines(lines, sep)| - |lines[|lines| - 1]|..] == lines[|lines| - 1]
  {
    if |lines| > 1 {
      JoinEndsWithLastLine(lines[1..], sep);
      var rest := JoinLines(lines[1..], sep);
      var last := lines[|lines| - 1];
      assert lines[1..][|lines[1..]| - 1] == last;
      var j := lines[0] + sep + rest;
      assert j[|j| - |last|..] == rest[|rest| - |last|..];
    }
  }

  lemma {:induction false} JoinHasContent(lines: seq<string>, sep: string, w: nat)
    requires w < |lines| && HasContent(lines[w])
    ensures HasContent(JoinLines(lines, sep))
  {
    var i :| 0 <= i < |lines[w]| && !IsJsWhitespace(lines[w][i]);
    if |lines| == 1 {
    } else if w == 0 {
      var j := JoinLines(lines, sep);
      assert j[i] == lines[0][i];
    } else {
      JoinHasContent(lines[1..], sep, w - 1);
      var rest := JoinLines(lines[1..], sep);
      var i' :| 0 <= i' < |rest| && !IsJsWhitespace(rest[i']);
      var j := lines[0] + sep + rest;
      assert j[|lines[0] + sep| + i'] == rest[i'];
    }
  }

  /** A written line has no LF anywhere. */
  lemma {:induction false} FileLineLfFree(line: string)
    requires IsWrittenLine(line)
    ensures forall j :: 0 <= j < |line| ==> line[j] != '\n'
  {
    forall j | 0 <= j < |line|
      ensures line[j] != '\n'
    {
      assert line[j] in line;
    }
  }

  /** With the first LF at `e`, the split cuts there, dropping a CR just before it. */
  lemma {:induction false} SplitCrLfAt(s: string, e: nat)
    requires e < |s| && LineEnd(s) == e
    ensures SplitCrLf(s) == [if e > 0 && s[e - 1] == '\r' then s[..e - 1] else s[..e]] + SplitCrLf(s[e + 1..])
  {
  }

  /** The first LF of a written line followed by its separator and more text is the separator's. */
  lemma {:induction false} SeparatorLf(line: string, sep: string, rest: string)
    requires IsWrittenLine(line)
    requires sep == "\r\n" || sep == "\n"
    ensures LineEnd(line + sep + rest) == |line| + |sep| - 1
  {
    var s := line + sep + rest;
    var e := |line| + |sep| - 1;
    FileLineLfFree(line);
    forall j | 0 <= j < e
      ensures s[j] != '\n'
    {
      if j < |line| {
        assert s[j] == line[j];
      }
    }
    LineEndAt(s, e);
  }

  /** The split takes a written line, blank or not, and its separator off the front. */
  lemma {:induction false} SplitCrLfCons(line: string, crlf: bool, rest: string)
    requires IsWrittenLine(line)
    ensures SplitCrLf(line + (if crlf then "\r\n" else "\n") + rest) == [line] + SplitCrLf(rest)
  {
    var sep := if crlf then "\r\n" else "\n";
    var s := line + sep + rest;
    var e := |line| + |sep| - 1;
    SeparatorLf(line, sep, rest);
    SplitCrLfAt(s, e);
    assert s[e + 1..] == rest;
    if crlf {
      assert s[..e - 1] == line;
    } else if |line| == 0 {
      assert s[..e] == line;
    } else {
      assert s[e - 1] == line[|line| - 1];
      assert s[..e] == line;
    }
  }

  /** Splitting undoes joining written lines, blank ones included, with LF or CRLF. */
  lemma {:induction false} SplitCrLfJoin(lines: seq<string>, crlf: bool)
    requires |lines| > 0
    requires forall i :: 0 <= i < |lines| ==> IsWrittenLine(lines[i])
    ensures SplitCrLf(JoinLines(lines, if crlf then "\r\n" else "\n")) == lines
  {
    var sep := if crlf then "\r\n" else "\n";
    var line := lines[0];
    assert IsWrittenLine(line);
    if |lines| == 1 {
      FileLineLfFree(line);
      LineEndAt(line, |line|);
    } else {
      var rest := JoinLines(lines[1..], sep);
      assert JoinLines(lines, sep) == line + sep + rest;
      SplitCrLfCons(line, crlf, rest);
      SplitCrLfJoin(lines[1..], crlf);
      assert lines == [line] + lines[1..];
    }
  }

  lemma {:induction false} StripBreakTail(a: string, b: string)
    requires forall i :: 0 <= i < |b| ==> IsLineBreak(b[i])
    requires |a| == 0 || !IsLineBreak(a[|a| - 1])
    ensures StripTrailingBreaks(a + b) == a
  {
    if |b| == 0 {
      assert a + b == a;
    } else {
      var s := a + b;
      assert s[|s| - 1] == b[|b| - 1];
      assert s[..|s| - 1] == a + b[..|b| - 1];
      StripBreakTail(a, b[..|b| - 1]);
    }
  }

  lemma {:induction false} JoinEndsInLine(lines: seq<string>, sep: string)
    requires |lines| > 0
    requires IsFileLine(lines[|lines| - 1])
    ensures var j := JoinLines(lines, sep); |j| > 0 && !IsLineBreak(j[|j| - 1])
  {
    var j := JoinLines(lines, sep);
    JoinEndsWithLastLine(lines, sep);
    var last := lines[|lines| - 1];
    assert IsFileLine(last);
    var suffix := j[|j| - |last|..];
    assert suffix[|last| - 1] == j[|j| - 1];
    assert last[|last| - 1] in last;
  }

  lemma {:induction false} HasContentExtend(a: string, b: string)
    requires HasContent(a)
    ensures HasContent(a + b)
  {
    var i :| 0 <= i < |a| && !IsJsWhitespace(a[i]);
    assert (a + b)[i] == a[i];
  }

  /** A file of rule lines, with some non-blank line, keeps content after a run of breaks is appended. */
  lemma {:induction false} JoinedFileHasContent(lines: seq<string>, sep: string, tail: string, w: nat)
    requires w < |lines| && HasContent(lines[w])
    ensures HasContent(JoinLines(lines, sep) + tail)
  {
    JoinHasContent(lines, sep, w);
    HasContentExtend(JoinLines(lines, sep), tail);
  }

  /** Stripping the trailing breaks of a joined file gives back the joined lines. */
  lemma {:induction false} JoinedFileStrips(lines: seq<string>, sep: string, tail: string)
    requires |lines| > 0
    requires IsFileLine(lines[|lines| - 1])
    requires forall i :: 0 <= i < |tail| ==> IsLineBreak(tail[i])
    ensures StripTrailingBreaks(JoinLines(lines, sep) + tail) == JoinLines(lines, sep)
  {
    JoinEndsInLine(lines, sep);
    StripBreakTail(JoinLines(lines, sep), tail);
  }

  /**
   A file written one rule per line, with blank lines anywhere before the
   last rule, LF or CRLF line endings and any run of line breaks at the
   end, reads back as its non-blank lines in file order; when no line is
   blank, as exactly those lines.
   */
  lemma {:induction false} SubsFileRoundTrip(lines: seq<string>, crlf: bool, tail: string, w: nat)
    requires |lines| > 0
    requires forall i :: 0 <= i < |lines| ==> IsWrittenLine(lines[i])
    requires |lines[|lines| - 1]| > 0
    requires forall i :: 0 <= i < |tail| ==> IsLineBreak(tail[i])
    requires w < |lines| && HasContent(lines[w])
    ensures SubsFileLines(JoinLines(lines, if crlf then "\r\n" else "\n") + tail) == NonEmpty(lines)
    ensures (forall i :: 0 <= i < |lines| ==> |lines[i]| > 0) ==>
      SubsFileLines(JoinLines(lines, if crlf then "\r\n" else "\n") + tail) == lines
  {
    var sep := if crlf then "\r\n" else "\n";
    assert IsFileLine(lines[|lines| - 1]);
    JoinedFileHasContent(lines, sep, tail, w);
    JoinedFileStrips(lines, sep, tail);
    SplitCrLfJoin(lines, crlf);
    if forall i :: 0 <= i < |lines| ==> |lines[i]| > 0 {
      NonEmptyKeepsAll(lines);
    }
  }

  // ---------------------------------------------------------------------
  // The ordered rule list

  /** The rule strings of the substitutions file, when one was given and exists. */
  function FileSubs(subsFile: Option<string>): seq<string> {
    match subsFile
    case None => []
    case Some(content) => SubsFileLines(content)
  }

  /** `-m` is a non-empty pattern and `-r` is given (even as `''`). */
  predicate HasMainRule(opts: Options) {
    opts.matchPattern.Some? && opts.matchPattern.value != "" && opts.replacement.Some?
  }

  /** The number of rules that come before the file's rules. */
  function MainCount(opts: Options): nat {
    if HasMainRule(opts) then 1 else 0
  }

  /** The `-m`/`-r` rule, when there is one. */
  function MainRule(opts: Options): seq<Rule> {
    if HasMainRule(opts) then
      [Replace(Regex(opts.matchPattern.value, Flags(opts.noCase, opts.oneLine)), opts.replacement.value)]
    else []
  }

  /** `subs.forEach((sub) => processSub(sub, rules))`: one rule per string appended, in order. */
  method AppendProcessed(rules: seq<Rule>, subs: seq<string>, noCase: bool, oneLine: bool) returns (out: seq<Rule>)
    ensures |out| == |rules| + |subs|
    ensures out[..|rules|] == rules
    ensures forall i :: 0 <= i < |subs| ==> out[|rules| + i] == ProcessSub(subs[i], noCase, oneLine)
  {
    out := rules;
    var i := 0;
    while i < |subs|
      invariant 0 <= i <= |subs|
      invariant |out| == |rules| + i
      invariant out[..|rules|] == rules
      invariant forall j :: 0 <= j < i ==> out[|rules| + j] == ProcessSub(subs[j], noCase, oneLine)
    {
      out := out + [ProcessSub(subs[i], noCase, oneLine)];
      i := i + 1;
    }
  }

  /**
   The rule list, in the order the rules are applied: the `-m`/`-r` rule,
   then the file's rules in file order, then the `-s` values in argument
   order. `subsFile` is the file's text, `None` when no file is used.
   */
  method BuildRules(opts: Options, subsFile: Option<string>) returns (rules: seq<Rule>)
    ensures |rules| == MainCount(opts) + |FileSubs(subsFile)| + |opts.subs|
    ensures HasMainRule(opts) ==>
      rules[0] == Replace(Regex(opts.matchPattern.value, Flags(opts.noCase, opts.oneLine)), opts.replacement.value)
    ensures forall i :: 0 <= i < |FileSubs(subsFile)| ==>
      rules[MainCount(opts) + i] == ProcessSub(FileSubs(subsFile)[i], opts.noCase, opts.oneLine)
    ensures forall i :: 0 <= i < |opts.subs| ==>
      rules[MainCount(opts) + |FileSubs(subsFile)| + i] == ProcessSub(opts.subs[i], opts.noCase, opts.oneLine)
  {
    var head := MainRule(opts);
    var fileSubs := FileSubs(subsFile);
    var withFile := AppendProcessed(head, fileSubs, opts.noCase, opts.oneLine);
    rules := AppendProcessed(withFile, opts.subs, opts.noCase, opts.oneLine);
    assert rules[..|head|] == withFile[..|withFile|][..|head|];
    forall i | 0 <= i < |fileSubs|
      ensures rules[|head| + i] == ProcessSub(fileSubs[i], opts.noCase, opts.oneLine)
    {
      assert rules[|head| + i] == rules[..|withFile|][|head| + i];
    }
  }
}
