/**
 Shared vocabulary for the model of quick-regex: an optional value (JavaScript's
 `undefined`), decimal digits as JavaScript's `\d` sees them, and the `join('')`
 of a list of strings.
 */
module Text {

  /** A value that may be absent, as an unmatched capture group or an unset option is. */
  datatype Option<+T> = None | Some(value: T) {

    /** The value, or `default` when absent (JavaScript's `x || default` for strings). */
    function GetOr(default: T): T {
      match this
      case Some(v) => v
      case None => default
    }
  }

  /** An ASCII decimal digit: exactly the characters JavaScript's `\d` matches. */
  predicate IsDigit(c: char) {
    '0' <= c <= '9'
  }

  predicate AllDigits(s: string) {
    forall i :: 0 <= i < |s| ==> IsDigit(s[i])
  }

  /** `parts.join('')`. */
  function Concat(parts: seq<string>): string {
    if |parts| == 0 then "" else parts[0] + Concat(parts[1..])
  }

  /** Joining is compatible with appending lists of parts. */
  lemma {:induction false} ConcatAppend(a: seq<string>, b: seq<string>)
    ensures Concat(a + b) == Concat(a) + Concat(b)
  {
    if |a| == 0 {
      assert a + b == b;
    } else {
      assert (a + b)[1..] == a[1..] + b;
      ConcatAppend(a[1..], b);
    }
  }

  /** Joining one more part at the end. */
  lemma {:induction false} ConcatSnoc(a: seq<string>, s: string)
    ensures Concat(a + [s]) == Concat(a) + s
  {
    ConcatAppend(a, [s]);
    assert Concat([s]) == s + Concat([]);
  }

  /** Regrouping a one-character prefix; kept apart so that proofs about recursive text functions need not rediscover it. */
  lemma ConsAssoc(c: char, a: string, b: string)
    ensures [c] + (a + b) == ([c] + a) + b
  {
  }

  /** The index of the first LF in `s`, or `|s|` when there is none. */
  function LineEnd(s: string): (k: nat)
    ensures k <= |s|
    ensures k < |s| ==> s[k] == '\n'
  {
    if |s| == 0 || s[0] == '\n' then 0 else 1 + LineEnd(s[1..])
  }

  /** No LF comes before `LineEnd(s)`: it is the first one. */
  lemma {:induction false} LineEndFirst(s: string)
    ensures forall j :: 0 <= j < LineEnd(s) ==> s[j] != '\n'
  {
    if |s| > 0 && s[0] != '\n' {
      LineEndFirst(s[1..]);
      forall j | 0 < j < LineEnd(s)
        ensures s[j] != '\n'
      {
        assert s[j] == s[1..][j - 1];
      }
    }
  }

  /** The first LF is wherever one stands after LF-free text. */
  lemma {:induction false} LineEndAt(s: string, e: nat)
    requires e <= |s|
    requires forall j :: 0 <= j < e ==> s[j] != '\n'
    requires e < |s| ==> s[e] == '\n'
    ensures LineEnd(s) == e
  {
    if e > 0 {
      assert s[0] != '\n';
      LineEndAt(s[1..], e - 1);
    }
  }
}
