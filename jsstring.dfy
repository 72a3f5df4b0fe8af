/**
 * The few JavaScript string operations the dashboard relies on, on strings of
 * Unicode scalar values (one `char` per value): `trim`, `replace` of a single
 * character, `slice(-2)`, ASCII upper-casing and the template-literal
 * rendering of a possibly-undefined value.
 */
module JsString {
  import opened Wrappers

  /**
   * WhiteSpace and LineTerminator code points of ECMAScript (sections 12.2 and
   * 12.3 of ECMA-262): the characters `String.prototype.trim` removes and the
   * ones `Number(string)` ignores around a literal.
   */
  predicate IsWhiteSpace(c: char) {
    || c == '\t' || c == '\n' || c == '\U{000B}' || c == '\U{000C}' || c == '\r'
    || c == ' ' || c == '\U{00A0}' || c == '\U{1680}'
    || ('\U{2000}' <= c <= '\U{200A}')
    || c == '\U{2028}' || c == '\U{2029}' || c == '\U{202F}' || c == '\U{205F}'
    || c == '\U{3000}' || c == '\U{FEFF}'
  }

  /** No white space at either end. */
  predicate IsTrimmed(s: string) {
    s == [] || (!IsWhiteSpace(s[0]) && !IsWhiteSpace(s[|s| - 1]))
  }

  /** `s.trim()`: white space removed from both ends. */
  function Trim(s: string): (r: string)
    ensures IsTrimmed(r)
    ensures |r| <= |s|
    ensures s != [] && !IsWhiteSpace(s[0]) && !IsWhiteSpace(s[|s| - 1]) ==> r == s
    decreases |s|
  {
    if s == [] then s
    else if IsWhiteSpace(s[0]) then Trim(s[1..])
    else if IsWhiteSpace(s[|s| - 1]) then Trim(s[..|s| - 1])
    else s
  }

  /**
   * What `trim` removes: `Trim(s)` is the infix `s[i..j]`, and everything
   * before `i` and from `j` on is white space.
   */
  lemma {:induction false} TrimBounds(s: string) returns (i: nat, j: nat)
    ensures i <= j <= |s| && Trim(s) == s[i..j]
    ensures forall k :: 0 <= k < i ==> IsWhiteSpace(s[k])
    ensures forall k :: j <= k < |s| ==> IsWhiteSpace(s[k])
  {
    if s == [] {
      i, j := 0, 0;
    } else if IsWhiteSpace(s[0]) {
      var i', j' := TrimBounds(s[1..]);
      i, j := i' + 1, j' + 1;
      assert s[1..][i'..j'] == s[i..j];
      forall k | 0 <= k < i ensures IsWhiteSpace(s[k]) {
        if k > 0 { assert s[k] == s[1..][k - 1]; }
      }
      forall k | j <= k < |s| ensures IsWhiteSpace(s[k]) {
        assert s[k] == s[1..][k - 1];
      }
    } else if IsWhiteSpace(s[|s| - 1]) {
      i, j := TrimBounds(s[..|s| - 1]);
      assert s[..|s| - 1][i..j] == s[i..j];
      forall k | j <= k < |s| ensures IsWhiteSpace(s[k]) {
        if k < |s| - 1 { assert s[k] == s[..|s| - 1][k]; }
      }
    } else {
      i, j := 0, |s|;
    }
  }

  /** Trimming twice is trimming once: every value `trim` produces is already trimmed. */
  lemma TrimIdempotent(s: string)
    ensures Trim(Trim(s)) == Trim(s)
  {
  }

  /** A character other than white space survives `trim`. */
  lemma TrimKeeps(s: string, k: nat)
    requires k < |s| && !IsWhiteSpace(s[k])
    ensures s[k] in Trim(s)
  {
    var i, j := TrimBounds(s);
    assert Trim(s)[k - i] == s[k];
  }

  /** A string that starts with a character other than white space does not trim to "". */
  lemma TrimNonBlank(s: string)
    requires s != [] && !IsWhiteSpace(s[0])
    ensures Trim(s) != []
  {
    TrimKeeps(s, 0);
  }

  /** The index of the first `c` in `s`, or `|s|` when there is none. */
  function IndexOf(s: string, c: char): (k: nat)
    ensures k <= |s|
    ensures k < |s| ==> s[k] == c
    ensures c !in s[..k]
  {
    if s == [] then 0 else if s[0] == c then 0 else 1 + IndexOf(s[1..], c)
  }

  /** `s.replace(from, to)` with a one-character string pattern: only the first match changes. */
  function ReplaceFirst(s: string, from: char, to: char): (r: string)
    ensures |r| == |s|
    ensures forall i :: 0 <= i < |s| ==> r[i] == if i == IndexOf(s, from) then to else s[i]
  {
    var k := IndexOf(s, from);
    if k == |s| then s else s[..k] + [to] + s[k + 1..]
  }

  /** `s.slice(-2)`: the last two code units, or all of `s` when it is shorter. */
  function LastTwo(s: string): (r: string)
    ensures |r| == if |s| < 2 then |s| else 2
    ensures s == s[..|s| - |r|] + r
  {
    if |s| < 2 then s else s[|s| - 2..]
  }

  function UpperChar(c: char): char {
    if 'a' <= c <= 'z' then (c as int - 32) as char else c
  }

  /** `s.toUpperCase()` restricted to the ASCII letters. */
  function ToUpperAscii(s: string): (r: string)
    ensures |r| == |s|
    ensures forall i :: 0 <= i < |s| ==> r[i] == UpperChar(s[i])
  {
    if s == [] then [] else [UpperChar(s[0])] + ToUpperAscii(s[1..])
  }

  /** How a template literal renders a string that may be `undefined`. */
  function Show(o: Option<string>): string {
    match o
    case Some(s) => s
    case None => "undefined"
  }
}
