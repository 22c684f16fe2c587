/** Character classes and string helpers shared by the fence scanner, the code-block
    formatter, the message renderer and the chat input. */
module Strings {

  /** A character that JavaScript's `String.prototype.trim` removes: the WhiteSpace
      code points (tab, vertical tab, form feed, space, no-break space, the byte order
      mark and every other space separator) and the LineTerminator code points. */
  predicate IsSpace(c: char)
  {
    || c == '\t' || c == '\n' || c == '\U{B}' || c == '\U{C}' || c == '\r' || c == ' '
    || c == '\U{A0}' || c == '\U{1680}' || ('\U{2000}' <= c <= '\U{200A}')
    || c == '\U{2028}' || c == '\U{2029}' || c == '\U{202F}' || c == '\U{205F}'
    || c == '\U{3000}' || c == '\U{FEFF}'
  }

  /** The regular-expression class `\w`: ASCII letters, digits and underscore. */
  predicate IsWordChar(c: char)
  {
    ('a' <= c <= 'z') || ('A' <= c <= 'Z') || ('0' <= c <= '9') || c == '_'
  }

  predicate AllSpace(s: string)
  {
    forall k :: 0 <= k < |s| ==> IsSpace(s[k])
  }

  predicate AllWord(s: string)
  {
    forall k :: 0 <= k < |s| ==> IsWordChar(s[k])
  }

  /** Neither end of `s` is a trim character. */
  predicate IsTrimmed(s: string)
  {
    |s| == 0 || (!IsSpace(s[0]) && !IsSpace(s[|s| - 1]))
  }

  predicate StartsWith(s: string, p: string)
  {
    |p| <= |s| && s[..|p|] == p
  }

  predicate EndsWith(s: string, p: string)
  {
    |p| <= |s| && s[|s| - |p|..] == p
  }

  /** `s.trimStart()`: drops the leading trim characters. */
  function TrimStart(s: string): (r: string)
    ensures |r| <= |s| && r == s[|s| - |r|..]
    ensures AllSpace(s[..|s| - |r|])
    ensures |r| > 0 ==> !IsSpace(r[0])
  {
    if |s| > 0 && IsSpace(s[0]) then TrimStart(s[1..]) else s
  }

  /** `s.trimEnd()`: drops the trailing trim characters. */
  function TrimEnd(s: string): (r: string)
    ensures |r| <= |s| && r == s[..|r|]
    ensures AllSpace(s[|r|..])
    ensures |r| > 0 ==> !IsSpace(r[|r| - 1])
  {
    if |s| > 0 && IsSpace(s[|s| - 1]) then TrimEnd(s[..|s| - 1]) else s
  }

  /** `s.trim()`: what is left after removing the trim characters at both ends. */
  function Trim(s: string): (r: string)
    ensures IsTrimmed(r) && |r| <= |s|
  {
    TrimEnd(TrimStart(s))
  }

  /** The trimmed string is the infix of the input between a run of trim characters at
      the front and a run of trim characters at the back. */
  lemma TrimInfix(s: string) returns (i: nat, j: nat)
    ensures i <= j <= |s| && Trim(s) == s[i..j]
    ensures AllSpace(s[..i]) && AllSpace(s[j..])
  {
    var a := TrimStart(s);
    var r := TrimEnd(a);
    i := |s| - |a|;
    j := i + |r|;
    assert r == s[i..j];
    assert s[j..] == a[|r|..];
  }

  /** The trim of `s` is a slice of `s` with only trim characters around it. */
  lemma TrimIsInfix(s: string)
    ensures exists i, j :: 0 <= i <= j <= |s| && Trim(s) == s[i..j] && AllSpace(s[..i]) && AllSpace(s[j..])
  {
    var i, j := TrimInfix(s);
  }

  /** A trimmed text is empty exactly when the text is all trim characters. */
  lemma TrimEmptyIffAllSpace(s: string)
    ensures Trim(s) == "" <==> AllSpace(s)
  {
    var i, j := TrimInfix(s);
    if Trim(s) == "" {
      forall k | 0 <= k < |s|
        ensures IsSpace(s[k])
      {
        if k < i {
          assert s[k] == s[..i][k];
        } else {
          assert s[k] == s[j..][k - j];
        }
      }
    }
  }

  /** Trimming a string made of trim characters, a trimmed core and trim characters
      again gives back exactly the core. */
  lemma {:induction false} TrimPeel(front: string, core: string, back: string)
    requires AllSpace(front) && AllSpace(back) && IsTrimmed(core)
    ensures Trim(front + core + back) == core
  {
    var s := front + core + back;
    assert s == front + (core + back);
    if |core| == 0 {
      assert core + back == back;
      TrimStartPeel(front, back);
      assert TrimStart(s) == "";
    } else {
      assert (core + back)[0] == core[0];
      TrimStartPeel(front, core + back);
      assert TrimStart(s) == core + back;
      TrimEndPeel(core, back);
    }
  }

  /** Trailing trim characters after a trimmed string are all that trimming removes. */
  lemma TrimBack(core: string, back: string)
    requires IsTrimmed(core) && AllSpace(back)
    ensures Trim(core + back) == core
  {
    assert core + back == "" + core + back;
    TrimPeel("", core, back);
  }

  /** Leading trim characters are all that `trimStart` removes before a non-space. */
  lemma {:induction false} TrimStartPeel(front: string, rest: string)
    requires AllSpace(front)
    requires |rest| == 0 || !IsSpace(rest[0]) || AllSpace(rest)
    ensures |rest| > 0 && !IsSpace(rest[0]) ==> TrimStart(front + rest) == rest
    ensures AllSpace(rest) ==> TrimStart(front + rest) == ""
  {
    if |front| == 0 {
      assert front + rest == rest;
      if AllSpace(rest) && |rest| > 0 {
        assert rest[1..] == "" + rest[1..];
        TrimStartPeel("", rest[1..]);
      }
    } else {
      assert (front + rest)[1..] == front[1..] + rest;
      TrimStartPeel(front[1..], rest);
    }
  }

  /** Trailing trim characters are all that `trimEnd` removes after a trimmed text. */
  lemma {:induction false} TrimEndPeel(core: string, back: string)
    requires AllSpace(back) && IsTrimmed(core)
    ensures TrimEnd(core + back) == core
  {
    if |back| == 0 {
      assert core + back == core;
      if |core| > 0 {
        assert !IsSpace(core[|core| - 1]);
      }
    } else {
      var s := core + back;
      assert s[..|s| - 1] == core + back[..|back| - 1];
      TrimEndPeel(core, back[..|back| - 1]);
    }
  }

  /** Concatenation of all parts, in order (`parts.join('')`). */
  function Concat(parts: seq<string>): (r: string)
    ensures |parts| == 1 ==> r == parts[0]
  {
    if |parts| == 0 then "" else parts[0] + Concat(parts[1..])
  }

  /** Joining two leading parts and the rest. */
  lemma ConcatCons2(a: string, b: string, rest: seq<string>)
    ensures Concat([a, b] + rest) == a + b + Concat(rest)
  {
    var parts := [a, b] + rest;
    assert parts[1..] == [b] + rest;
    assert parts[1..][1..] == rest;
  }

  /** Concatenation of the parts with `f` applied to every odd-position part. */
  function SpliceOdd(parts: seq<string>, f: string -> string): string
  {
    if |parts| == 0 then ""
    else if |parts| == 1 then parts[0]
    else parts[0] + f(parts[1]) + SpliceOdd(parts[2..], f)
  }
}
