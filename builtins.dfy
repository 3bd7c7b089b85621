/**
  The few Python built-ins the outline extractor relies on, written out so that
  the model does not depend on anything outside this project:
  `round` on a float, `str.lower`, `str.strip` and `''.join`.
 */
module Builtins {

  datatype Option<T> = None | Some(value: T)

  /** Python's `round(x)` with no digits argument: the nearest integer, ties to even. */
  function Round(x: real): (n: int)
    ensures -0.5 <= x - n as real <= 0.5
    ensures (x - n as real == 0.5 || x - n as real == -0.5) ==> n % 2 == 0
  {
    var f := x.Floor;
    var d := x - f as real;
    if d < 0.5 then f
    else if d > 0.5 then f + 1
    else if f % 2 == 0 then f
    else f + 1
  }

  /** `str.lower` restricted to ASCII: 'A'..'Z' map to 'a'..'z', every other character is kept. */
  function LowerChar(c: char): char
  {
    if 'A' <= c <= 'Z' then (c as int + 32) as char else c
  }

  function Lower(s: string): string
  {
    seq(|s|, i requires 0 <= i < |s| => LowerChar(s[i]))
  }

  /** Lower-casing twice is lower-casing once, and a lower-cased text has no upper-case ASCII letter. */
  lemma LowerIdempotent(s: string)
    ensures Lower(Lower(s)) == Lower(s)
    ensures forall i :: 0 <= i < |Lower(s)| ==> !('A' <= Lower(s)[i] <= 'Z')
  {
  }

  /** The characters for which Python's `str.isspace()` holds. */
  predicate IsSpace(c: char)
  {
    || '\t' <= c <= '\r'
    || '\U{1C}' <= c <= ' '
    || c == '\U{85}' || c == '\U{A0}' || c == '\U{1680}'
    || '\U{2000}' <= c <= '\U{200A}'
    || c == '\U{2028}' || c == '\U{2029}' || c == '\U{202F}' || c == '\U{205F}' || c == '\U{3000}'
  }

  predicate AllSpace(s: string)
  {
    forall i :: 0 <= i < |s| ==> IsSpace(s[i])
  }

  /** `s` without its leading whitespace. */
  function StripLeading(s: string): string
  {
    if s != [] && IsSpace(s[0]) then StripLeading(s[1..]) else s
  }

  /** `s` without its trailing whitespace. */
  function StripTrailing(s: string): string
  {
    if s != [] && IsSpace(s[|s| - 1]) then StripTrailing(s[..|s| - 1]) else s
  }

  /** Python's `str.strip()` with no argument. */
  function Strip(s: string): string
  {
    StripTrailing(StripLeading(s))
  }

  /** StripLeading drops a whitespace prefix and stops at the first other character. */
  lemma StripLeadingSplit(s: string) returns (a: nat)
    ensures a <= |s| && StripLeading(s) == s[a..] && AllSpace(s[..a])
    ensures a < |s| ==> !IsSpace(s[a])
  {
    if s != [] && IsSpace(s[0]) {
      var a' := StripLeadingSplit(s[1..]);
      a := a' + 1;
      assert s[1..][a'..] == s[a..];
      forall i | 0 <= i < a ensures IsSpace(s[..a][i]) {
        if i > 0 {
          assert s[..a][i] == s[1..][..a'][i - 1];
        }
      }
    } else {
      a := 0;
    }
  }

  /** StripTrailing drops a whitespace suffix and stops at the last other character. */
  lemma StripTrailingSplit(s: string) returns (b: nat)
    ensures b <= |s| && StripTrailing(s) == s[..b] && AllSpace(s[b..])
    ensures b > 0 ==> !IsSpace(s[b - 1])
  {
    if s != [] && IsSpace(s[|s| - 1]) {
      var n := |s| - 1;
      b := StripTrailingSplit(s[..n]);
      assert s[..n][..b] == s[..b];
      forall i | 0 <= i < |s| - b ensures IsSpace(s[b..][i]) {
        if b + i < n {
          assert s[b..][i] == s[..n][b..][i];
        }
      }
    } else {
      b := |s|;
    }
  }

  /**
    `str.strip()` removes whitespace from the two ends only: the result is a
    slice of `s` between two runs of whitespace, it is empty exactly when `s`
    is all whitespace, and otherwise it starts and ends with a character
    that is not whitespace.
   */
  lemma StripFacts(s: string)
    ensures Strip(s) == [] <==> AllSpace(s)
    ensures Strip(s) != [] ==> !IsSpace(Strip(s)[0]) && !IsSpace(Strip(s)[|Strip(s)| - 1])
    ensures exists a :: 0 <= a <= |s| - |Strip(s)| && Strip(s) == s[a..a + |Strip(s)|] &&
                        AllSpace(s[..a]) && AllSpace(s[a + |Strip(s)|..])
  {
    var a := StripLeadingSplit(s);
    var t := s[a..];
    var b := StripTrailingSplit(t);
    assert Strip(s) == t[..b] == s[a..a + b];
    assert t[b..] == s[a + b..];
    if b == 0 {
      forall i | 0 <= i < |s| ensures IsSpace(s[i]) {
        assert s[..a][i] == s[i];
      }
    } else {
      assert t[0] == s[a] && t[b - 1] == s[a + b - 1];
      assert !AllSpace(s) by { assert !IsSpace(s[a]); }
    }
  }

  /** `''.join(parts)`. */
  function Join(parts: seq<string>): (r: string)
    ensures |parts| == 0 ==> r == []
  {
    if parts == [] then [] else Join(parts[..|parts| - 1]) + parts[|parts| - 1]
  }

  /** Joining two lists of parts is joining each and concatenating the results; one part joins to itself. */
  lemma {:induction false} JoinAppend(a: seq<string>, b: seq<string>)
    ensures Join(a + b) == Join(a) + Join(b)
    ensures forall part: string :: Join([part]) == part
  {
    if b == [] {
      assert a + b == a;
    } else {
      var front := b[..|b| - 1];
      JoinAppend(a, front);
      assert (a + b)[..|a + b| - 1] == a + front;
      assert (a + b)[|a + b| - 1] == b[|b| - 1];
    }
    forall part: string ensures Join([part]) == part {
      assert [part][..0] == [];
    }
  }

  /** The indices of the elements of `s` that satisfy `p`, in increasing order. */
  function Positions<T>(s: seq<T>, p: T -> bool): (idx: seq<nat>)
    ensures forall k :: 0 <= k < |idx| ==> idx[k] < |s| && p(s[idx[k]])
  {
    if s == [] then []
    else
      var front := Positions(s[..|s| - 1], p);
      assert forall k :: 0 <= k < |front| ==> s[..|s| - 1][front[k]] == s[front[k]];
      front + (if p(s[|s| - 1]) then [|s| - 1] else [])
  }

  /** The positions increase, and every element satisfying `p` has its index among them. */
  lemma {:induction false} PositionsFacts<T>(s: seq<T>, p: T -> bool)
    ensures forall k, k' :: 0 <= k < k' < |Positions(s, p)| ==> Positions(s, p)[k] < Positions(s, p)[k']
    ensures forall i :: 0 <= i < |s| && p(s[i]) ==> exists k :: 0 <= k < |Positions(s, p)| && Positions(s, p)[k] == i
  {
    if s != [] {
      var n := |s| - 1;
      var front := s[..n];
      var pre := Positions(front, p);
      var idx := Positions(s, p);
      PositionsFacts(front, p);
      assert idx == pre + (if p(s[n]) then [n] else []);
      forall i | 0 <= i < |s| && p(s[i]) ensures exists k :: 0 <= k < |idx| && idx[k] == i {
        if i < n {
          assert front[i] == s[i];
          var k :| 0 <= k < |pre| && pre[k] == i;
          assert idx[k] == i;
        } else {
          assert idx[|pre|] == i;
        }
      }
    }
  }

  /** Positions are listed in increasing order. */
  lemma PositionsOrder<T>(s: seq<T>, p: T -> bool, a: nat, b: nat)
    requires a < |Positions(s, p)| && b < |Positions(s, p)| && Positions(s, p)[a] < Positions(s, p)[b]
    ensures a < b
  {
    PositionsFacts(s, p);
  }

  function Min(a: int, b: int): int
  {
    if a <= b then a else b
  }
}
