/**
 The legacy replacement expander of the CommonJS entry point: every
 occurrence of `${N}` (optionally preceded by one backslash) in the
 replacement string is rewritten against the capture array of one regex
 match. The scan is the one `String.prototype.replace` performs with the
 global pattern `(\\?)\$\{(\d+)\}`: left to right, non-overlapping, text
 between occurrences copied unchanged.

 Captures are `seq<Option<string>>`: index 0 is the whole match, `None`
 is a group that did not participate.
 */
module LegacyTemplate {
  import opened Text

  /** The numeric value JavaScript's `Number` gives a non-empty digit string. */
  function DigitsValue(d: string): nat
    requires AllDigits(d)
  {
    if |d| == 0 then 0
    else 10 * DigitsValue(d[..|d| - 1]) + (d[|d| - 1] as int - '0' as int)
  }

  /**
   True when `d` is the canonical spelling of an array index, so that the
   property lookup `args[d]` reaches element `DigitsValue(d)`; `"01"` is not
   (it names no element and reads `undefined`).
   */
  predicate IsIndexKey(d: string) {
    |d| == 1 || (|d| > 1 && d[0] != '0')
  }

  /** The longest prefix of `s` made of digits (what the greedy `\d+` consumes). */
  function DigitRun(s: string): (d: string)
    ensures |d| <= |s|
  {
    if |s| > 0 && IsDigit(s[0]) then [s[0]] + DigitRun(s[1..]) else ""
  }

  /** The run is a digit prefix of the text and the character after it, if any, is not a digit. */
  lemma {:induction false} DigitRunSpec(s: string)
    ensures var d := DigitRun(s);
      d == s[..|d|] && AllDigits(d) && (|d| < |s| ==> !IsDigit(s[|d|]))
  {
    if |s| > 0 && IsDigit(s[0]) {
      var d := DigitRun(s);
      var e := DigitRun(s[1..]);
      DigitRunSpec(s[1..]);
      assert d == [s[0]] + e;
      assert s[..|d|] == [s[0]] + s[1..][..|e|];
      forall i | 0 <= i < |d|
        ensures IsDigit(d[i])
      {
        if i > 0 {
          assert d[i] == e[i - 1];
        }
      }
      if |d| < |s| {
        assert s[|d|] == s[1..][|e|];
      }
    }
  }

  /**
   The digit string of an unescaped reference `${digits}` at the start of
   `t`, if one is there. `\d+` can only succeed with the whole digit run,
   since any shorter run is followed by a digit rather than `}`.
   */
  function RefAt(t: string): (r: Option<string>)
    ensures r.Some? ==> |r.value| > 0 && AllDigits(r.value) && |r.value| + 3 <= |t|
  {
    if |t| >= 2 && t[0] == '$' && t[1] == '{' then
      var d := DigitRun(t[2..]);
      DigitRunSpec(t[2..]);
      if 0 < |d| && |d| + 2 < |t| && t[|d| + 2] == '}' then Some(d) else None
    else None
  }

  /**
   What the replace callback returns for an unescaped reference: the
   reference itself when the index is not below the capture count (the
   comparison converts the digit string to a number), otherwise `args[d]`,
   with `''` for an unmatched group or a key that is not an array index.
   */
  function Substitute(captures: seq<Option<string>>, d: string): string
    requires AllDigits(d)
  {
    if DigitsValue(d) >= |captures| then "${" + d + "}"
    else if IsIndexKey(d) then captures[DigitsValue(d)].GetOr("")
    else ""
  }

  /** The replacement string expanded against one match's captures. */
  function Expand(captures: seq<Option<string>>, tmpl: string): string
    decreases |tmpl|
  {
    if |tmpl| == 0 then ""
    else if tmpl[0] == '\\' && RefAt(tmpl[1..]).Some? then
      var d := RefAt(tmpl[1..]).value;
      "${" + d + "}" + Expand(captures, tmpl[|d| + 4..])
    else if RefAt(tmpl).Some? then
      var d := RefAt(tmpl).value;
      Substitute(captures, d) + Expand(captures, tmpl[|d| + 3..])
    else
      [tmpl[0]] + Expand(captures, tmpl[1..])
  }

  // ---------------------------------------------------------------------
  // Recognising a reference

  lemma {:induction false} DigitRunStops(d: string, rest: string)
    requires AllDigits(d)
    requires |rest| > 0 && !IsDigit(rest[0])
    ensures DigitRun(d + rest) == d
  {
    if |d| > 0 {
      assert (d + rest)[1..] == d[1..] + rest;
      DigitRunStops(d[1..], rest);
    }
  }

  /** `${digits}` is recognised exactly: the whole digit string, nothing more. */
  lemma {:induction false} RefAtReference(d: string, t: string)
    requires |d| > 0 && AllDigits(d)
    ensures RefAt("${" + d + "}" + t) == Some(d)
  {
    var s := "${" + d + "}" + t;
    assert s[2..] == d + ("}" + t);
    DigitRunStops(d, "}" + t);
  }

  /** A recognised reference is spelled `${`, its digits, `}`, at the start of the text. */
  lemma {:induction false} RefAtSpelling(t: string)
    requires RefAt(t).Some?
    ensures t[..|RefAt(t).value| + 3] == "${" + RefAt(t).value + "}"
  {
    var d := RefAt(t).value;
    DigitRunSpec(t[2..]);
    assert t[2..][..|d|] == d;
    assert t[..|d| + 3] == t[..2] + t[2..][..|d|] + [t[|d| + 2]];
  }

  /** A reference needs a `$` where it starts. */
  lemma {:induction false} RefAtNeedsDollar(t: string)
    requires |t| > 0 && t[0] != '$'
    ensures RefAt(t).None?
  {
  }

  // ---------------------------------------------------------------------
  // How Expand treats each kind of text

  /** A character that starts no reference, escaped or not, is copied and scanning moves on by one. */
  lemma {:induction false} ExpandCopiesChar(captures: seq<Option<string>>, s: string)
    requires |s| > 0 && s[0] != '$'
    requires s[0] == '\\' ==> RefAt(s[1..]).None?
    ensures Expand(captures, s) == [s[0]] + Expand(captures, s[1..])
  {
    RefAtNeedsDollar(s);
  }

  /** A character other than `$` and `\` in front of any text is copied. */
  lemma {:induction false} ExpandPlainChar(captures: seq<Option<string>>, c: char, u: string)
    requires c != '$' && c != '\\'
    ensures Expand(captures, [c] + u) == [c] + Expand(captures, u)
  {
    var s := [c] + u;
    RefAtNeedsDollar(s);
    assert s[1..] == u;
  }

  /** No `$` and no `\`: text in which nothing can start a reference. */
  predicate Plain(lit: string) {
    forall i :: 0 <= i < |lit| ==> lit[i] != '$' && lit[i] != '\\'
  }

  /** Text free of `$` and `\` is copied verbatim and does not affect what follows. */
  lemma {:induction false} ExpandLiteralPrefix(captures: seq<Option<string>>, lit: string, t: string)
    requires Plain(lit)
    ensures Expand(captures, lit + t) == lit + Expand(captures, t)
  {
    if |lit| == 0 {
      assert lit + t == t;
    } else {
      var c := lit[0];
      var rest := lit[1..];
      assert Plain(rest) by {
        forall i | 0 <= i < |rest| ensures rest[i] == lit[i + 1] { }
      }
      var u := rest + t;
      var x := Expand(captures, t);
      assert lit + t == [c] + u;
      ExpandPlainChar(captures, c, u);
      ExpandLiteralPrefix(captures, rest, t);
      ConsAssoc(c, rest, x);
      assert [c] + rest == lit;
    }
  }

  /** A template without `$` comes back unchanged, backslashes included. */
  lemma {:induction false} ExpandDollarFree(captures: seq<Option<string>>, t: string)
    requires '$' !in t
    ensures Expand(captures, t) == t
  {
    if |t| > 0 {
      assert t[0] in t;
      if |t| > 1 {
        assert t[1] in t;
        RefAtNeedsDollar(t[1..]);
      }
      ExpandCopiesChar(captures, t);
      assert '$' !in t[1..] by {
        forall i | 0 <= i < |t[1..]| ensures t[1..][i] == t[i + 1] { }
      }
      ExpandDollarFree(captures, t[1..]);
      assert t == [t[0]] + t[1..];
    }
  }

  /** A template in which no reference can be recognised anywhere comes back unchanged. */
  lemma {:induction false} ExpandWithoutReferences(captures: seq<Option<string>>, t: string)
    requires forall i :: 0 <= i <= |t| ==> RefAt(t[i..]).None?
    ensures Expand(captures, t) == t
  {
    if |t| > 0 {
      assert RefAt(t[0..]).None? && RefAt(t[1..]).None?;
      assert t[0..] == t;
      forall i | 0 <= i <= |t[1..]|
        ensures RefAt(t[1..][i..]).None?
      {
        assert t[1..][i..] == t[i + 1..];
      }
      ExpandWithoutReferences(captures, t[1..]);
    }
  }

  /** A `$` that starts no reference is copied and scanning moves on by one. */
  lemma {:induction false} ExpandLoneDollar(captures: seq<Option<string>>, s: string)
    requires |s| > 0 && s[0] == '$' && RefAt(s).None?
    ensures Expand(captures, s) == "$" + Expand(captures, s[1..])
  {
  }

  /** `${` followed by anything but a digit (`${}`, `${a}`) is plain text. */
  lemma {:induction false} ExpandNonDigitAfterBrace(captures: seq<Option<string>>, x: char, t: string)
    requires !IsDigit(x)
    ensures Expand(captures, "${" + [x] + t) == "${" + Expand(captures, [x] + t)
  {
    var s := "${" + [x] + t;
    var v := [x] + t;
    var u := "{" + v;
    assert s[2..] == v;
    DigitRunSpec(v);
    assert DigitRun(v) == "";
    ExpandLoneDollar(captures, s);
    assert s[1..] == u;
    ExpandPlainChar(captures, '{', v);
    ConsAssoc('$', "{", Expand(captures, v));
  }

  /** An unescaped reference contributes `Substitute` and scanning resumes after its `}`. */
  lemma {:induction false} ExpandReference(captures: seq<Option<string>>, d: string, t: string)
    requires |d| > 0 && AllDigits(d)
    ensures Expand(captures, "${" + d + "}" + t) == Substitute(captures, d) + Expand(captures, t)
  {
    var s := "${" + d + "}" + t;
    RefAtReference(d, t);
    assert s[|d| + 3..] == t;
  }

  /** An in-range reference spelled as an array index becomes the group's text, `''` if unmatched. */
  lemma {:induction false} ExpandInRange(captures: seq<Option<string>>, d: string, t: string)
    requires |d| > 0 && AllDigits(d) && IsIndexKey(d)
    requires DigitsValue(d) < |captures|
    ensures captures[DigitsValue(d)].Some? ==>
      Expand(captures, "${" + d + "}" + t) == captures[DigitsValue(d)].value + Expand(captures, t)
    ensures captures[DigitsValue(d)].None? ==>
      Expand(captures, "${" + d + "}" + t) == Expand(captures, t)
  {
    ExpandReference(captures, d, t);
  }

  /** An index at or beyond the capture count is left verbatim. */
  lemma {:induction false} ExpandOutOfRange(captures: seq<Option<string>>, d: string, t: string)
    requires |d| > 0 && AllDigits(d)
    requires DigitsValue(d) >= |captures|
    ensures Expand(captures, "${" + d + "}" + t) == "${" + d + "}" + Expand(captures, t)
  {
    ExpandReference(captures, d, t);
  }

  /** An in-range index written with a leading zero reads a non-index key: `''`. */
  lemma {:induction false} ExpandLeadingZero(captures: seq<Option<string>>, d: string, t: string)
    requires |d| > 1 && AllDigits(d) && d[0] == '0'
    requires DigitsValue(d) < |captures|
    ensures Expand(captures, "${" + d + "}" + t) == Expand(captures, t)
  {
    ExpandReference(captures, d, t);
  }

  /** A backslash before a reference is dropped and the reference kept, whatever its index. */
  lemma {:induction false} ExpandEscaped(captures: seq<Option<string>>, d: string, t: string)
    requires |d| > 0 && AllDigits(d)
    ensures Expand(captures, "\\${" + d + "}" + t) == "${" + d + "}" + Expand(captures, t)
  {
    var s := "\\${" + d + "}" + t;
    assert s[1..] == "${" + d + "}" + t;
    RefAtReference(d, t);
    assert s[|d| + 4..] == t;
  }

  /** `${0}` is the whole match. */
  lemma {:induction false} ExpandWholeMatch(captures: seq<Option<string>>, t: string)
    requires |captures| > 0
    ensures Expand(captures, "${0}" + t) == captures[0].GetOr("") + Expand(captures, t)
  {
    assert "${0}" + t == "${" + "0" + "}" + t;
    assert DigitsValue("0") == 0;
    ExpandInRange(captures, "0", t);
  }

  // ---------------------------------------------------------------------
  // Numbered references

  function DigitChar(k: nat): (c: char)
    requires k < 10
    ensures IsDigit(c) && c as int - '0' as int == k
  {
    ('0' as int + k) as char
  }

  /** The decimal spelling of `n`, as template authors write group numbers. */
  function NatToDigits(n: nat): (d: string)
    ensures |d| > 0 && AllDigits(d)
    ensures DigitsValue(d) == n
    ensures IsIndexKey(d)
  {
    if n < 10 then [DigitChar(n)]
    else
      var hi := NatToDigits(n / 10);
      var d := hi + [DigitChar(n % 10)];
      assert d[..|d| - 1] == hi;
      assert |hi| == 1 ==> hi[0] != '0' by {
        if |hi| == 1 {
          assert hi[..0] == "";
        }
      }
      d
  }

  /** `${n}` with `n` below the capture count is group `n`'s text, `''` when unmatched. */
  lemma {:induction false} ExpandGroup(captures: seq<Option<string>>, n: nat, t: string)
    requires n < |captures|
    ensures Expand(captures, "${" + NatToDigits(n) + "}" + t) == captures[n].GetOr("") + Expand(captures, t)
  {
    ExpandInRange(captures, NatToDigits(n), t);
  }
}
