/** Cutting a string at runs of delimiters. */
module Tokenizing {

  /** No character of the string is a delimiter. */
  predicate Plain(s: string, delim: string)
  {
    forall i :: 0 <= i < |s| ==> s[i] !in delim
  }

  /** The length of the run of characters at the front that are no delimiters. */
  function Run(s: string, delim: string): (n: nat)
    ensures n <= |s| && (n < |s| ==> s[n] in delim)
  {
    if s == "" || s[0] in delim then 0 else 1 + Run(s[1..], delim)
  }

  /** The longest pieces without delimiters. */
  function Tokens(s: string, delim: string): (tokens: seq<string>)
    decreases |s|
  {
    if s == "" then []
    else if s[0] in delim then Tokens(s[1..], delim)
    else [s[..Run(s, delim)]] + Tokens(s[Run(s, delim)..], delim)
  }

  lemma {:induction false} RunIs(s: string, delim: string, n: nat)
    requires n <= |s| && Plain(s[..n], delim) && (n < |s| ==> s[n] in delim)
    ensures Run(s, delim) == n
  {
    if n != 0 {
      assert s[0] == s[..n][0];
      assert s[1..][..n - 1] == s[..n][1..];
      RunIs(s[1..], delim, n - 1);
    }
  }

  lemma {:induction false} RunPlain(s: string, delim: string)
    ensures Plain(s[..Run(s, delim)], delim)
    ensures s != "" && s[0] !in delim ==> 0 < Run(s, delim)
  {
    if s != "" && s[0] !in delim {
      RunPlain(s[1..], delim);
      assert s[..Run(s, delim)] == [s[0]] + s[1..][..Run(s[1..], delim)];
    }
  }

  /** No token is empty or has a delimiter in it. */
  lemma {:induction false} TokensArePlain(s: string, delim: string)
    ensures forall i :: 0 <= i < |Tokens(s, delim)| ==> Tokens(s, delim)[i] != "" && Plain(Tokens(s, delim)[i], delim)
    decreases |s|
  {
    if s != "" {
      if s[0] in delim {
        TokensArePlain(s[1..], delim);
      } else {
        TokensArePlain(s[Run(s, delim)..], delim);
        RunPlain(s, delim);
      }
    }
  }

  /** A piece in front of a delimiter, or of nothing. */
  lemma TokensOfPiece(piece: string, rest: string, delim: string)
    requires piece != "" && Plain(piece, delim) && (rest == "" || rest[0] in delim)
    ensures Tokens(piece + rest, delim) == [piece] + Tokens(rest, delim)
  {
    var s := piece + rest;
    assert s[..|piece|] == piece && s[|piece|..] == rest;
    RunIs(s, delim, |piece|);
    assert s[0] == piece[0];
  }

  /** Delimiters in front do not matter. */
  lemma {:induction false} TokensBehind(delimiters: string, rest: string, delim: string)
    requires forall i :: 0 <= i < |delimiters| ==> delimiters[i] in delim
    ensures Tokens(delimiters + rest, delim) == Tokens(rest, delim)
  {
    if delimiters == "" {
      assert delimiters + rest == rest;
    } else {
      var s := delimiters + rest;
      assert s[0] == delimiters[0] && s[1..] == delimiters[1..] + rest;
      TokensBehind(delimiters[1..], rest, delim);
    }
  }

  /** A delimiter separates: the tokens of both sides, one behind the other. */
  lemma {:induction false} TokensConcat(a: string, b: string, delim: string)
    requires b == "" || b[0] in delim
    ensures Tokens(a + b, delim) == Tokens(a, delim) + Tokens(b, delim)
    decreases |a|
  {
    hide Tokens, Run, Plain;
    if a == "" {
      assert a + b == b;
      NoTokens(delim);
    } else if a[0] in delim {
      assert (a + b)[1..] == a[1..] + b;
      TokensConcat(a[1..], b, delim);
      TokensSkip(a, delim);
      TokensSkip(a + b, delim);
    } else {
      RunPlain(a, delim);
      var piece, rest := a[..Run(a, delim)], a[Run(a, delim)..];
      assert a == piece + rest && a + b == piece + (rest + b);
      TokensConcat(rest, b, delim);
      assert rest == "" ==> rest + b == b;
      TokensOfPiece(piece, rest + b, delim);
      TokensOfPiece(piece, rest, delim);
    }
  }

  lemma TokensSkip(s: string, delim: string)
    requires s != "" && s[0] in delim
    ensures Tokens(s, delim) == Tokens(s[1..], delim)
  {
  }

  /** The first position from pos on whose character is a delimiter, or is not; the length if there is none. */
  method FindFirst(s: string, delim: string, delimiter: bool, pos: nat) returns (i: nat)
    requires pos <= |s|
    ensures pos <= i <= |s| && (i < |s| ==> (s[i] in delim <==> delimiter))
    ensures forall k :: pos <= k < i ==> (s[k] in delim <==> !delimiter)
  {
    i := pos;
    while i < |s| && (s[i] in delim) != delimiter
      invariant pos <= i <= |s|
      invariant forall k :: pos <= k < i ==> (s[k] in delim <==> !delimiter)
    {
      i := i + 1;
    }
  }

  method Tokenize(str: string, delim: string) returns (vec: seq<string>)
    ensures vec == Tokens(str, delim)
  {
    hide Tokens, Run;
    vec := [];
    var pos := 0;
    assert str[0..] == str;
    while true
      invariant pos <= |str| && vec + Tokens(str[pos..], delim) == Tokens(str, delim)
      decreases |str| - pos
    {
      var start := FindFirst(str, delim, false, pos);
      assert str[pos..] == str[pos..start] + str[start..];
      TokensBehind(str[pos..start], str[start..], delim);
      if start == |str| {
        NoTokens(delim);
        assert str[start..] == "";
        break;
      }
      var end := FindFirst(str, delim, true, start);
      assert str[start..] == str[start..end] + str[end..];
      TokensOfPiece(str[start..end], str[end..], delim);
      vec := vec + [str[start..end]];
      pos := end;
    }
  }

  lemma NoTokens(delim: string)
    ensures Tokens("", delim) == []
  {
  }
}
