/**
 The rewriting applied to each replaced line before it is written out:
 with `--format`, every two-character sequence backslash-`e` becomes the
 ESC control character; with `--whitespace-escapes`, backslash-`n`,
 backslash-`t` and backslash-`r` become LF, TAB and CR, in that order.
 Each rewrite is one global `String.prototype.replace`, so it scans left
 to right and never rescans what it produced.
 */
module OutputEscapes {

  const Esc: char := '\U{001B}'

  /** A backslash at `i` immediately followed by `c`. */
  predicate PairAt(s: string, c: char, i: int) {
    0 <= i && i + 1 < |s| && s[i] == '\\' && s[i + 1] == c
  }

  /** No backslash-`c` sequence anywhere in `s`. */
  predicate NoPair(s: string, c: char) {
    forall i :: 0 <= i < |s| ==> !PairAt(s, c, i)
  }

  /** `s.replace(/\\c/g, out)`: each backslash-`c` sequence, taken left to right, becomes `out`. */
  function ReplacePair(s: string, c: char, out: char): string
    decreases |s|
  {
    if |s| == 0 then ""
    else if PairAt(s, c, 0) then [out] + ReplacePair(s[2..], c, out)
    else [s[0]] + ReplacePair(s[1..], c, out)
  }

  /**
   The inverse direction: every `out` written as backslash-`c`, which is how
   a user spells the character on the command line.
   */
  function Escape(s: string, c: char, out: char): string {
    if |s| == 0 then ""
    else (if s[0] == out then ['\\', c] else [s[0]]) + Escape(s[1..], c, out)
  }

  /** The line as written: `format` and `whitespaceEscapes` are the two switches. */
  function FormatOutput(rv: string, format: bool, whitespaceEscapes: bool): string {
    var afterFormat := if format then ReplacePair(rv, 'e', Esc) else rv;
    if whitespaceEscapes then
      ReplacePair(ReplacePair(ReplacePair(afterFormat, 'n', '\n'), 't', '\t'), 'r', '\r')
    else afterFormat
  }

  /** What a user writes to obtain `s`: the four escapes, innermost first in reverse order of decoding. */
  function EscapeOutput(s: string): string {
    Escape(Escape(Escape(Escape(s, 'r', '\r'), 't', '\t'), 'n', '\n'), 'e', Esc)
  }

  // ---------------------------------------------------------------------
  // Pairs in a string built from a head character and a tail

  lemma {:induction false} NoPairCons(x: char, r: string, c: char)
    ensures NoPair([x] + r, c) <==> NoPair(r, c) && !(x == '\\' && |r| > 0 && r[0] == c)
  {
    var s := [x] + r;
    if NoPair(s, c) {
      forall i | 0 <= i < |r| ensures !PairAt(r, c, i) {
        assert !PairAt(s, c, i + 1);
      }
      assert !PairAt(s, c, 0);
    }
    if NoPair(r, c) && !(x == '\\' && |r| > 0 && r[0] == c) {
      forall i | 0 <= i < |s| ensures !PairAt(s, c, i) {
        if i > 0 {
          assert !PairAt(r, c, i - 1);
        }
      }
    }
  }

  lemma {:induction false} NoPairEmpty(c: char)
    ensures NoPair("", c)
  {
  }

  /** The first character of the rewritten text. */
  lemma {:induction false} ReplacePairHead(s: string, c: char, out: char)
    requires |s| > 0
    ensures |ReplacePair(s, c, out)| > 0
    ensures ReplacePair(s, c, out)[0] == if PairAt(s, c, 0) then out else s[0]
  {
  }

  // ---------------------------------------------------------------------
  // What one pass guarantees

  /** After the pass no backslash-`c` is left, including none formed by a removal. */
  lemma {:induction false} ReplacePairRemovesAll(s: string, c: char, out: char)
    requires c != '\\' && out != '\\' && out != c
    ensures NoPair(ReplacePair(s, c, out), c)
    decreases |s|
  {
    if |s| == 0 {
      NoPairEmpty(c);
    } else if PairAt(s, c, 0) {
      ReplacePairRemovesAll(s[2..], c, out);
      NoPairCons(out, ReplacePair(s[2..], c, out), c);
    } else {
      var tail := ReplacePair(s[1..], c, out);
      ReplacePairRemovesAll(s[1..], c, out);
      if |s| > 1 {
        ReplacePairHead(s[1..], c, out);
        assert !PairAt(s, c, 0);
      }
      NoPairCons(s[0], tail, c);
    }
  }

  /** A pass for `c` creates no backslash-`d` sequence that was not there before. */
  lemma {:induction false} ReplacePairKeepsNoPair(s: string, c: char, out: char, d: char)
    requires NoPair(s, d)
    requires out != '\\' && out != d
    ensures NoPair(ReplacePair(s, c, out), d)
    decreases |s|
  {
    if |s| == 0 {
      NoPairEmpty(d);
    } else if PairAt(s, c, 0) {
      assert s == [s[0]] + s[1..];
      NoPairCons(s[0], s[1..], d);
      assert s[1..] == [s[1]] + s[2..];
      assert s[1..][1..] == s[2..];
      NoPairCons(s[1], s[2..], d);
      ReplacePairKeepsNoPair(s[2..], c, out, d);
      NoPairCons(out, ReplacePair(s[2..], c, out), d);
    } else {
      assert s == [s[0]] + s[1..];
      NoPairCons(s[0], s[1..], d);
      ReplacePairKeepsNoPair(s[1..], c, out, d);
      if |s| > 1 {
        ReplacePairHead(s[1..], c, out);
      }
      NoPairCons(s[0], ReplacePair(s[1..], c, out), d);
    }
  }

  /** Text with no backslash-`c` sequence passes through unchanged. */
  lemma {:induction false} ReplacePairIdentity(s: string, c: char, out: char)
    requires NoPair(s, c)
    ensures ReplacePair(s, c, out) == s
    decreases |s|
  {
    if |s| > 0 {
      NoPairCons(s[0], s[1..], c);
      assert s == [s[0]] + s[1..];
      assert !PairAt(s, c, 0);
      ReplacePairIdentity(s[1..], c, out);
    }
  }

  /** Each replacement shortens the text by one: the length never grows. */
  lemma {:induction false} ReplacePairLength(s: string, c: char, out: char)
    ensures |ReplacePair(s, c, out)| <= |s|
    ensures !NoPair(s, c) ==> |ReplacePair(s, c, out)| < |s|
    decreases |s|
  {
    if |s| > 0 {
      if PairAt(s, c, 0) {
        ReplacePairLength(s[2..], c, out);
      } else {
        ReplacePairLength(s[1..], c, out);
        NoPairCons(s[0], s[1..], c);
        assert s == [s[0]] + s[1..];
      }
    }
  }

  /** The pass changes the text exactly when there is something to replace. */
  lemma {:induction false} ReplacePairChanges(s: string, c: char, out: char)
    ensures ReplacePair(s, c, out) == s <==> NoPair(s, c)
  {
    ReplacePairLength(s, c, out);
    if NoPair(s, c) {
      ReplacePairIdentity(s, c, out);
    }
  }

  // ---------------------------------------------------------------------
  // The pass undoes the escaping

  /** A string in which no backslash stands before `c` is recovered from its escaped form. */
  lemma {:induction false} ReplacePairInverse(s: string, c: char, out: char)
    requires c != '\\'
    requires NoPair(s, c)
    ensures ReplacePair(Escape(s, c, out), c, out) == s
    decreases |s|
  {
    if |s| > 0 {
      var e := Escape(s, c, out);
      var rest := Escape(s[1..], c, out);
      NoPairCons(s[0], s[1..], c);
      assert s == [s[0]] + s[1..];
      ReplacePairInverse(s[1..], c, out);
      if s[0] == out {
        assert e == ['\\', c] + rest;
        assert PairAt(e, c, 0);
        assert e[2..] == rest;
      } else {
        assert e == [s[0]] + rest;
        if |s| > 1 {
          assert |rest| > 0 && rest[0] == if s[1] == out then '\\' else s[1];
        }
        assert !PairAt(e, c, 0);
        assert e[1..] == rest;
      }
    }
  }

  /** Escaping for `c` introduces no backslash-`d` sequence for any other letter `d`. */
  lemma {:induction false} EscapeKeepsNoPair(s: string, c: char, out: char, d: char)
    requires NoPair(s, d)
    requires c != '\\' && d != '\\' && d != c
    ensures NoPair(Escape(s, c, out), d)
    decreases |s|
  {
    if |s| == 0 {
      NoPairEmpty(d);
    } else {
      var rest := Escape(s[1..], c, out);
      NoPairCons(s[0], s[1..], d);
      assert s == [s[0]] + s[1..];
      EscapeKeepsNoPair(s[1..], c, out, d);
      if |s| > 1 {
        assert |rest| > 0 && rest[0] == if s[1] == out then '\\' else s[1];
      }
      if s[0] == out {
        NoPairCons(c, rest, d);
        NoPairCons('\\', [c] + rest, d);
        assert ['\\', c] + rest == [('\\')] + ([c] + rest);
      } else {
        NoPairCons(s[0], rest, d);
      }
    }
  }

  lemma {:induction false} NoBackslashNoPair(s: string, c: char)
    requires '\\' !in s
    ensures NoPair(s, c)
  {
    forall i | 0 <= i < |s| ensures !PairAt(s, c, i) {
      assert s[i] in s;
    }
  }

  // ---------------------------------------------------------------------
  // The whole output rewrite

  /**
   With `--format` no backslash-`e` survives; with `--whitespace-escapes`
   no backslash-`n`, backslash-`t` or backslash-`r` survives. A later pass
   cannot reintroduce what an earlier one removed.
   */
  lemma {:induction false} FormatOutputClean(rv: string, format: bool, whitespaceEscapes: bool)
    ensures format ==> NoPair(FormatOutput(rv, format, whitespaceEscapes), 'e')
    ensures whitespaceEscapes ==>
      var r := FormatOutput(rv, format, whitespaceEscapes);
      NoPair(r, 'n') && NoPair(r, 't') && NoPair(r, 'r')
  {
    var a := if format then ReplacePair(rv, 'e', Esc) else rv;
    if format {
      ReplacePairRemovesAll(rv, 'e', Esc);
    }
    if whitespaceEscapes {
      var b := ReplacePair(a, 'n', '\n');
      var c := ReplacePair(b, 't', '\t');
      ReplacePairRemovesAll(a, 'n', '\n');
      ReplacePairRemovesAll(b, 't', '\t');
      ReplacePairRemovesAll(c, 'r', '\r');
      ReplacePairKeepsNoPair(b, 't', '\t', 'n');
      ReplacePairKeepsNoPair(c, 'r', '\r', 'n');
      ReplacePairKeepsNoPair(c, 'r', '\r', 't');
      if format {
        ReplacePairKeepsNoPair(a, 'n', '\n', 'e');
        ReplacePairKeepsNoPair(b, 't', '\t', 'e');
        ReplacePairKeepsNoPair(c, 'r', '\r', 'e');
      }
    }
  }

  /** Text without backslashes is written unchanged whatever the switches. */
  lemma {:induction false} FormatOutputNoBackslash(rv: string, format: bool, whitespaceEscapes: bool)
    requires '\\' !in rv
    ensures FormatOutput(rv, format, whitespaceEscapes) == rv
  {
    NoBackslashNoPair(rv, 'e');
    NoBackslashNoPair(rv, 'n');
    NoBackslashNoPair(rv, 't');
    NoBackslashNoPair(rv, 'r');
    ReplacePairIdentity(rv, 'e', Esc);
    ReplacePairIdentity(rv, 'n', '\n');
    ReplacePairIdentity(rv, 't', '\t');
    ReplacePairIdentity(rv, 'r', '\r');
  }

  /**
   With both switches on, any backslash-free text, control characters
   included, is obtained by writing it with the four escapes.
   */
  lemma {:induction false} FormatOutputRoundTrip(s: string)
    requires '\\' !in s
    ensures FormatOutput(EscapeOutput(s), true, true) == s
  {
    var r := Escape(s, 'r', '\r');
    var t := Escape(r, 't', '\t');
    var n := Escape(t, 'n', '\n');
    NoBackslashNoPair(s, 'r');
    NoBackslashNoPair(s, 't');
    NoBackslashNoPair(s, 'n');
    NoBackslashNoPair(s, 'e');
    EscapeKeepsNoPair(s, 'r', '\r', 't');
    EscapeKeepsNoPair(s, 'r', '\r', 'n');
    EscapeKeepsNoPair(s, 'r', '\r', 'e');
    EscapeKeepsNoPair(r, 't', '\t', 'n');
    EscapeKeepsNoPair(r, 't', '\t', 'e');
    EscapeKeepsNoPair(t, 'n', '\n', 'e');
    ReplacePairInverse(n, 'e', Esc);
    ReplacePairInverse(t, 'n', '\n');
    ReplacePairInverse(r, 't', '\t');
    ReplacePairInverse(s, 'r', '\r');
  }
}
