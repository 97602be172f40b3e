/** JavaScript's `String.prototype.trim` and the blank test the component
    applies to a new item's description (`description.trim() === ""`). */
module JsText {

  /** The code points `trim` strips: the WhiteSpace and LineTerminator
      productions of ECMAScript (sections 12.2 and 12.3 of ECMA-262), that is
      tab, vertical tab, form feed, space, no-break space, the byte order mark,
      every Unicode "Zs" space separator, line feed, carriage return, and the
      line and paragraph separators. */
  predicate IsWhitespace(c: char)
  {
    c == '\t' || c == '\n' || c == '\U{000B}' || c == '\U{000C}' || c == '\r' ||
    c == ' ' || c == '\U{00A0}' || c == '\U{1680}' ||
    ('\U{2000}' <= c <= '\U{200A}') ||
    c == '\U{2028}' || c == '\U{2029}' || c == '\U{202F}' || c == '\U{205F}' ||
    c == '\U{3000}' || c == '\U{FEFF}'
  }

  predicate AllWhitespace(s: string)
  {
    forall i :: 0 <= i < |s| ==> IsWhitespace(s[i])
  }

  /** `s` without its leading whitespace. */
  function TrimStart(s: string): (r: string)
  {
    if s != [] && IsWhitespace(s[0]) then TrimStart(s[1..]) else s
  }

  /** `s` without its trailing whitespace. */
  function TrimEnd(s: string): (r: string)
  {
    if s != [] && IsWhitespace(s[|s| - 1]) then TrimEnd(s[..|s| - 1]) else s
  }

  /** `s.trim()`: strip whitespace from both ends. */
  function Trim(s: string): (r: string)
  {
    TrimEnd(TrimStart(s))
  }

  /** The component's blank test on a description. */
  predicate IsBlank(s: string)
  {
    Trim(s) == ""
  }

  /** `TrimStart` cuts off a prefix made only of whitespace, and what it
      keeps is empty or starts with a non-whitespace character. */
  lemma {:induction false} TrimStartSpec(s: string)
    ensures var r := TrimStart(s);
      |r| <= |s| && r == s[|s| - |r|..] &&
      AllWhitespace(s[..|s| - |r|]) &&
      (r != [] ==> !IsWhitespace(r[0]))
  {
    if s != [] && IsWhitespace(s[0]) {
      var rest := s[1..];
      TrimStartSpec(rest);
      var r := TrimStart(rest);
      var cut, restCut := s[..|s| - |r|], rest[..|rest| - |r|];
      forall i | 0 <= i < |cut|
        ensures IsWhitespace(cut[i])
      {
        if i > 0 {
          assert cut[i] == restCut[i - 1];
        }
      }
    }
  }

  /** `TrimEnd` cuts off a suffix made only of whitespace, and what it
      keeps is empty or ends with a non-whitespace character. */
  lemma {:induction false} TrimEndSpec(s: string)
    ensures var r := TrimEnd(s);
      |r| <= |s| && r == s[..|r|] &&
      AllWhitespace(s[|r|..]) &&
      (r != [] ==> !IsWhitespace(r[|r| - 1]))
  {
    if s != [] && IsWhitespace(s[|s| - 1]) {
      var front := s[..|s| - 1];
      TrimEndSpec(front);
      var r := TrimEnd(front);
      var cut, frontCut := s[|r|..], front[|r|..];
      forall i | 0 <= i < |cut|
        ensures IsWhitespace(cut[i])
      {
        if i < |frontCut| {
          assert cut[i] == frontCut[i];
        }
      }
    }
  }

  /** A description is blank exactly when it is empty or made of whitespace
      only. */
  lemma BlankIffAllWhitespace(s: string)
    ensures IsBlank(s) <==> AllWhitespace(s)
  {
    var t := TrimStart(s);
    TrimStartSpec(s);
    TrimEndSpec(t);
    if t == [] {
      assert s[..|s|] == s;
    } else {
      assert s[|s| - |t|] == t[0];
    }
  }
}
