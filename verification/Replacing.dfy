/** Replacing every occurrence of a substring, and escaping text for XML (sections 4.1 and 4.6 of XML 1.0). */
module Replacing {
  import opened LeftmostSplit

  /** s from position from on, with each leftmost occurrence of search replaced. */
  function Replaced(s: string, search: string, replacement: string, from: nat): string
    requires search != "" && from <= |s|
    decreases |s| - from
  {
    var i := First(s, search, from);
    if i < 0 then s[from..] else s[from..i] + replacement + Replaced(s, search, replacement, i + |search|)
  }

  /** Replacing is splitting at what is searched and joining with what replaces it. */
  lemma {:induction false} ReplacedIsJoin(s: string, search: string, replacement: string, from: nat)
    requires search != "" && from <= |s|
    ensures Replaced(s, search, replacement, from) == Join(SplitFrom(s, search, from), replacement)
    decreases |s| - from
  {
    hide First;
    var i := First(s, search, from);
    if 0 <= i {
      ReplacedIsJoin(s, search, replacement, i + |search|);
      var rest := SplitFrom(s, search, i + |search|);
      assert ([s[from..i]] + rest)[1..] == rest;
    }
  }

  /** Replaces the first occurrence behind start. */
  method Replace(s0: string, search: string, replacement: string, start0: nat) returns (s: string, start: nat)
    requires start0 <= |s0|
    ensures var i := First(s0, search, start0);
            if i < 0 then s == s0 && start == |s0| else start == i && s == s0[..i] + replacement + s0[i + |search|..]
  {
    s, start := s0, start0;
    var index := First(s, search, start);
    if index >= 0 {
      s := s[..index] + replacement + s[index + |search|..];
      start := index;
    } else {
      start := |s|;
    }
  }

  /** Replaces all occurrences. It ends for every search string that is not empty, even if what is put in
      contains it. */
  method ReplaceAll(string0: string, search: string, replacement: string) returns (s: string)
    requires search != ""
    ensures s == Replaced(string0, search, replacement, 0)
  {
    hide First, Replaced, Partly;
    s := string0;
    var start: nat := 0;
    ghost var k: nat := 0;
    ReplacingBegins(string0, search, replacement);
    while start < |s|
      invariant k <= |string0| && Partly(string0, search, replacement, k, s, start)
      decreases |string0| - k, |s| - start
    {
      ReplacingGoesOn(string0, search, replacement, k, s, start);
      ghost var i := First(string0, search, k);
      s, start := Replace(s, search, replacement, start);
      start := start + |replacement|;
      k := if i < 0 then |string0| else i + |search|;
    }
    ReplacingEnds(string0, search, replacement, k, s, start);
  }

  /** The string up to start is done; behind it is the original from k on. */
  ghost predicate Partly(string0: string, search: string, replacement: string, k: nat, s: string, start: nat)
    requires search != "" && k <= |string0|
  {
    if start <= |s| then
      && s == s[..start] + string0[k..]
      && s[..start] + Replaced(string0, search, replacement, k) == Replaced(string0, search, replacement, 0)
    else k == |string0| && s == Replaced(string0, search, replacement, 0)
  }

  lemma ReplacingBegins(string0: string, search: string, replacement: string)
    requires search != ""
    ensures Partly(string0, search, replacement, 0, string0, 0)
  {
    assert string0[..0] + string0[0..] == string0;
  }

  /** One turn of the loop. */
  lemma ReplacingGoesOn(string0: string, search: string, replacement: string, k: nat, s: string, start: nat)
    requires search != "" && k <= |string0| && Partly(string0, search, replacement, k, s, start) && start < |s|
    ensures var i, index := First(string0, search, k), First(s, search, start);
            if i < 0 then
              index < 0 && Partly(string0, search, replacement, |string0|, s, |s| + |replacement|) && k < |string0|
            else
              && k <= i && i + |search| <= |string0| && start <= index && index + |search| <= |s|
              && Partly(string0, search, replacement, i + |search|, s[..index] + replacement + s[index + |search|..],
                        index + |replacement|)
  {
    hide First, Replaced;
    var done := s[..start];
    FirstBehind(done, string0, k, search);
    if First(string0, search, k) < 0 {
      LastTurn(string0, search, replacement, k, s, start);
    } else {
      NextTurn(string0, search, replacement, k, done);
    }
  }

  lemma PartlyIs(string0: string, search: string, replacement: string, k: nat, done: string)
    requires search != "" && k <= |string0|
    requires done + Replaced(string0, search, replacement, k) == Replaced(string0, search, replacement, 0)
    ensures Partly(string0, search, replacement, k, done + string0[k..], |done|)
  {
    hide Replaced;
    assert (done + string0[k..])[..|done|] == done;
  }

  lemma NextTurn(string0: string, search: string, replacement: string, k: nat, done: string)
    requires search != "" && k <= |string0| && First(string0, search, k) >= 0
    requires done + Replaced(string0, search, replacement, k) == Replaced(string0, search, replacement, 0)
    ensures var i := First(string0, search, k);
            var s, index := done + string0[k..], i - k + |done|;
            && k <= i && i + |search| <= |string0|
            && Partly(string0, search, replacement, i + |search|, s[..index] + replacement + s[index + |search|..],
                      index + |replacement|)
  {
    hide *;
    var i := First(string0, search, k);
    ReplacedNext(string0, search, replacement, k);
    OneSpliced(done, string0, k, i, i + |search|, replacement);
    var next, rest := done + string0[k..i] + replacement, Replaced(string0, search, replacement, i + |search|);
    assert done + (string0[k..i] + replacement + rest) == next + rest;
    PartlyIs(string0, search, replacement, i + |search|, next);
  }

  lemma LastTurn(string0: string, search: string, replacement: string, k: nat, s: string, start: nat)
    requires search != "" && k <= |string0| && First(string0, search, k) < 0
    requires Partly(string0, search, replacement, k, s, start) && start < |s|
    ensures Partly(string0, search, replacement, |string0|, s, |s| + |replacement|) && k < |string0|
  {
    ReplacedNone(string0, search, replacement, k);
    WholeReplaced(string0, search, replacement);
    hide Replaced, First;
    assert s[..|s|] == s && string0[|string0|..] == "";
    assert s + "" == s;
  }

  lemma ReplacingEnds(string0: string, search: string, replacement: string, k: nat, s: string, start: nat)
    requires search != "" && k <= |string0| && Partly(string0, search, replacement, k, s, start) && |s| <= start
    ensures s == Replaced(string0, search, replacement, 0)
  {
    if start == |s| {
      assert |string0[k..]| == 0;
      WholeReplaced(string0, search, replacement);
    }
  }

  lemma WholeReplaced(s: string, search: string, replacement: string)
    requires search != ""
    ensures Replaced(s, search, replacement, |s|) == "" && s[|s|..] == ""
  {
  }

  /** Searching behind what is done is searching the rest of the original. */
  lemma FirstBehind(done: string, s: string, k: nat, search: string)
    requires k <= |s|
    ensures First(done + s[k..], search, |done|) == if First(s, search, k) < 0 then -1
      else First(s, search, k) - k + |done|
  {
    hide First;
    var all := done + s[k..];
    assert all[|done|..] == s[k..];
    FirstInSuffix(all, search, |done|, 0);
    FirstInSuffix(s, search, k, 0);
  }

  lemma ReplacedNext(s: string, search: string, replacement: string, k: nat)
    requires search != "" && k <= |s| && First(s, search, k) >= 0
    ensures var i := First(s, search, k);
            && k <= i && i + |search| <= |s|
            && Replaced(s, search, replacement, k)
                 == s[k..i] + replacement + Replaced(s, search, replacement, i + |search|)
  {
    hide First;
  }

  lemma OneSpliced(done: string, s: string, k: nat, i: nat, j: nat, replacement: string)
    requires k <= i <= j <= |s|
    ensures var all, index := done + s[k..], i - k + |done|;
            all[..index] + replacement + all[index + j - i..] == done + s[k..i] + replacement + s[j..]
  {
    var all, index := done + s[k..], i - k + |done|;
    assert all[..index] == done + s[k..i];
    assert all[index + j - i..] == s[j..];
  }

  /** With an empty search string a turn of the loop gets no nearer to its end. */
  lemma EmptySearchMakesNoProgress(s: string, replacement: string, start: nat)
    requires start < |s|
    ensures First(s, "", start) == start
    ensures |s[..start] + replacement + s[start..]| - (start + |replacement|) == |s| - start
  {
  }

  // ----- Escaping -----

  /** Each character put through a table. */
  function Mapped(s: string, table: char -> string): string
  {
    if s == "" then "" else table(s[0]) + Mapped(s[1..], table)
  }

  /** The table that replaces one character. */
  function Only(c: char, replacement: string): char -> string
  {
    x => if x == c then replacement else [x]
  }

  lemma {:induction false} MappedConcat(a: string, b: string, table: char -> string)
    ensures Mapped(a + b, table) == Mapped(a, table) + Mapped(b, table)
  {
    if a == "" {
      assert a + b == b && Mapped("", table) == "";
    } else {
      hide Mapped;
      MappedConcat(a[1..], b, table);
      MappedNext(a, table);
      MappedNext(a + b, table);
      assert (a + b)[1..] == a[1..] + b && (a + b)[0] == a[0];
    }
  }

  lemma MappedNext(s: string, table: char -> string)
    requires s != ""
    ensures Mapped(s, table) == table(s[0]) + Mapped(s[1..], table)
  {
  }

  lemma {:induction false} NothingMapped(s: string, c: char, replacement: string)
    requires c !in s
    ensures Mapped(s, Only(c, replacement)) == s
  {
    if s != "" {
      NothingMapped(s[1..], c, replacement);
      assert s == [s[0]] + s[1..];
    }
  }

  /** Replacing one character everywhere is putting each character through a table. */
  lemma {:induction false} ReplacedChar(s: string, c: char, replacement: string, from: nat)
    requires from <= |s|
    ensures Replaced(s, [c], replacement, from) == Mapped(s[from..], Only(c, replacement))
    decreases |s| - from
  {
    hide First, At, Replaced, Mapped;
    var i := First(s, [c], from);
    NoneBefore(s, c, from);
    if i < 0 {
      ReplacedNone(s, [c], replacement, from);
      NothingMapped(s[from..], c, replacement);
    } else {
      ReplacedNext(s, [c], replacement, from);
      CharMapped(s, c, replacement, from, i);
      ReplacedChar(s, c, replacement, i + 1);
    }
  }

  lemma NoneBefore(s: string, c: char, from: nat)
    requires from <= |s|
    ensures var i := First(s, [c], from);
            if i < 0 then c !in s[from..] else from <= i < |s| && s[i] == c && c !in s[from..i]
  {
    hide First, At;
    var i := First(s, [c], from);
    forall k | from <= k < |s| && (i < 0 || k < i)
      ensures s[k] != c
    {
      CharAt(s, c, k);
    }
    if 0 <= i {
      CharAt(s, c, i);
    }
  }

  lemma ReplacedNone(s: string, search: string, replacement: string, k: nat)
    requires search != "" && k <= |s| && First(s, search, k) < 0
    ensures Replaced(s, search, replacement, k) == s[k..]
  {
    hide First;
  }

  lemma CharAt(s: string, c: char, k: nat)
    ensures At(s, [c], k) <==> k < |s| && s[k] == c
  {
    if k < |s| {
      assert s[k..k + 1] == [s[k]];
    }
  }

  lemma CharMapped(s: string, c: char, replacement: string, from: nat, i: nat)
    requires from <= i < |s| && s[i] == c && c !in s[from..i]
    ensures Mapped(s[from..], Only(c, replacement))
      == s[from..i] + replacement + Mapped(s[i + 1..], Only(c, replacement))
  {
    assert s[from..] == s[from..i] + s[i..];
    MappedConcat(s[from..i], s[i..], Only(c, replacement));
    NothingMapped(s[from..i], c, replacement);
    assert s[i..][1..] == s[i + 1..];
  }

  /** One pass behind another is one pass with both tables. */
  lemma {:induction false} MappedTwice(s: string, first: char -> string, second: char -> string, both: char -> string)
    requires forall x :: both(x) == Mapped(first(x), second)
    ensures Mapped(Mapped(s, first), second) == Mapped(s, both)
  {
    if s != "" {
      MappedTwice(s[1..], first, second, both);
      MappedConcat(first(s[0]), Mapped(s[1..], first), second);
    }
  }

  /** What becomes of a character: the first n of the seven passes do their part. */
  function Escaped(n: nat): char -> string
  {
    x =>
      if x == '&' && n >= 1 then "&amp;"
      else if x == '<' && n >= 2 then "&lt;"
      else if x == '>' && n >= 3 then "&gt;"
      else if x == '"' && n >= 4 then "&quot;"
      else if x == '\'' && n >= 5 then "&apos;"
      else if x == '\n' && n >= 6 then "&#10;"
      else if x == '\r' && n >= 7 then "&#13;"
      else [x]
  }

  /** The character and the replacement of each pass. */
  const PASSES: seq<(char, string)> :=
    [('&', "&amp;"), ('<', "&lt;"), ('>', "&gt;"), ('"', "&quot;"), ('\'', "&apos;"), ('\n', "&#10;"), ('\r', "&#13;")]

  lemma OneMapped(x: char, table: char -> string)
    ensures Mapped([x], table) == table(x)
  {
    assert [x][1..] == "";
  }

  /** A pass replaces its character, which no pass before it has put in. */
  lemma PassOn(n: nat, x: char)
    requires n < 7
    ensures if x == PASSES[n].0 then Escaped(n)(x) == [x] && Escaped(n + 1)(x) == PASSES[n].1
            else Escaped(n + 1)(x) == Escaped(n)(x) && PASSES[n].0 !in Escaped(n)(x)
  {
    if n == 0 || n == 1 || n == 2 {
    } else if n == 3 || n == 4 {
    } else {
      assert n == 5 || n == 6;
    }
  }

  /** A pass leaves alone what the passes before it have put in. */
  lemma PassAdds(n: nat)
    requires n < 7
    ensures forall x :: Escaped(n + 1)(x) == Mapped(Escaped(n)(x), Only(PASSES[n].0, PASSES[n].1))
  {
    hide Escaped;
    var c, replacement := PASSES[n].0, PASSES[n].1;
    forall x
      ensures Escaped(n + 1)(x) == Mapped(Escaped(n)(x), Only(c, replacement))
    {
      PassOn(n, x);
      if x == c {
        OneMapped(x, Only(c, replacement));
      } else {
        NothingMapped(Escaped(n)(x), c, replacement);
      }
    }
  }

  lemma {:induction false} NoPass(s: string)
    ensures Mapped(s, Escaped(0)) == s
  {
    if s != "" {
      NoPass(s[1..]);
      assert s == [s[0]] + s[1..];
    }
  }

  /** The pass n, on what the passes before it have made. */
  lemma PassIs(s: string, n: nat)
    requires n < 7
    ensures Replaced(Mapped(s, Escaped(n)), [PASSES[n].0], PASSES[n].1, 0) == Mapped(s, Escaped(n + 1))
  {
    hide Escaped, Replaced;
    var t := Mapped(s, Escaped(n));
    ReplacedChar(t, PASSES[n].0, PASSES[n].1, 0);
    assert t[0..] == t;
    PassAdds(n);
    MappedTwice(s, Escaped(n), Only(PASSES[n].0, PASSES[n].1), Escaped(n + 1));
  }

  /** What becomes of each character, wherever it stands. */
  lemma EachEscaped(before: string, x: char, after: string)
    ensures Mapped(before + [x] + after, Escaped(7))
         == Mapped(before, Escaped(7))
            + (match x
               case '&' => "&amp;"
               case '<' => "&lt;"
               case '>' => "&gt;"
               case '"' => "&quot;"
               case '\'' => "&apos;"
               case '\n' => "&#10;"
               case '\r' => "&#13;"
               case _ => [x])
            + Mapped(after, Escaped(7))
  {
    MappedConcat(before + [x], after, Escaped(7));
    MappedConcat(before, [x], Escaped(7));
    OneMapped(x, Escaped(7));
    hide Mapped;
  }

  /** The seven passes, one behind the other, are one pass that looks at each character once. */
  method EscapeForXML(str0: string) returns (str: string)
    ensures str == Mapped(str0, Escaped(7))
  {
    hide Escaped, Replaced, Mapped;
    NoPass(str0);
    str := str0;
    PassIs(str0, 0);
    str := ReplaceAll(str, "&", "&amp;");
    PassIs(str0, 1);
    str := ReplaceAll(str, "<", "&lt;");
    PassIs(str0, 2);
    str := ReplaceAll(str, ">", "&gt;");
    PassIs(str0, 3);
    str := ReplaceAll(str, "\"", "&quot;");
    PassIs(str0, 4);
    str := ReplaceAll(str, "'", "&apos;");
    PassIs(str0, 5);
    str := ReplaceAll(str, "\n", "&#10;");
    PassIs(str0, 6);
    str := ReplaceAll(str, "\r", "&#13;");
  }

  // ----- Decoding -----

  /** The reference that a string begins with, if it is one of the seven: its character and its length. */
  function Reference(s: string): (r: (char, nat))
    ensures r.1 <= |s|
  {
    if "&amp;" <= s then ('&', 5)
    else if "&lt;" <= s then ('<', 4)
    else if "&gt;" <= s then ('>', 4)
    else if "&quot;" <= s then ('"', 6)
    else if "&apos;" <= s then ('\'', 6)
    else if "&#10;" <= s then ('\n', 5)
    else if "&#13;" <= s then ('\r', 5)
    else ('x', 0)
  }

  /** References turned back into their characters. */
  function Decoded(s: string): string
    decreases |s|
  {
    if s == "" then ""
    else if Reference(s).1 == 0 then [s[0]] + Decoded(s[1..])
    else [Reference(s).0] + Decoded(s[Reference(s).1..])
  }

  lemma ReferenceOfEscaped(x: char, rest: string)
    ensures var s := Escaped(7)(x) + rest;
            if |Escaped(7)(x)| > 1 then Reference(s) == (x, |Escaped(7)(x)|)
            else Escaped(7)(x) == [x] && Reference(s).1 == 0
  {
    var e := Escaped(7)(x);
    var s := e + rest;
    assert s[0] == e[0];
    if |e| > 1 {
      assert s[1] == e[1] && s[2] == e[2] && s[3] == e[3];
      assert s[..|e|] == e;
    }
  }

  /** Decoding inverts escaping. */
  lemma {:induction false} DecodedOfEscaped(s: string)
    ensures Decoded(Mapped(s, Escaped(7))) == s
  {
    if s != "" {
      hide Escaped, Reference;
      var e, rest := Escaped(7)(s[0]), Mapped(s[1..], Escaped(7));
      DecodedOfEscaped(s[1..]);
      ReferenceOfEscaped(s[0], rest);
      assert (e + rest)[|e|..] == rest;
      assert s == [s[0]] + s[1..];
    }
  }

  /** Different texts are escaped differently. */
  lemma EscapingIsInjective(s: string, t: string)
    requires Mapped(s, Escaped(7)) == Mapped(t, Escaped(7))
    ensures s == t
  {
    DecodedOfEscaped(s);
    DecodedOfEscaped(t);
  }

  lemma EscapedChar(x: char)
    ensures forall c :: c in Escaped(7)(x) ==> c !in "<>\"'\n\r"
    ensures forall i :: 0 <= i < |Escaped(7)(x)| && Escaped(7)(x)[i] == '&' ==> i == 0 && |Escaped(7)(x)| > 1
    ensures Escaped(7)(x) != ""
  {
  }

  /** None of the characters that are escaped, but ampersands that begin references. */
  predicate Safe(e: string)
  {
    && (forall i :: 0 <= i < |e| ==> e[i] !in "<>\"'\n\r")
    && (forall i :: 0 <= i < |e| && e[i] == '&' ==> Reference(e[i..]).1 > 0)
  }

  lemma SafeJoins(x: char, rest: string)
    requires Safe(rest)
    ensures Safe(Escaped(7)(x) + rest)
  {
    EscapedChar(x);
    ReferenceOfEscaped(x, rest);
    hide Escaped, Reference;
    var e := Escaped(7)(x);
    var all := e + rest;
    forall i | 0 <= i < |all|
      ensures all[i] !in "<>\"'\n\r" && (all[i] == '&' ==> Reference(all[i..]).1 > 0)
    {
      if i < |e| {
        assert all[i] == e[i];
        assert i == 0 ==> all[i..] == all;
      } else {
        assert all[i] == rest[i - |e|];
        assert all[i..] == rest[i - |e|..];
      }
    }
  }

  /** None of the escaped characters is left except the ampersands that begin references. */
  lemma {:induction false} EscapedIsSafe(s: string)
    ensures Safe(Mapped(s, Escaped(7)))
  {
    hide Escaped, Safe;
    if s == "" {
      NothingIsSafe();
    } else {
      EscapedIsSafe(s[1..]);
      SafeJoins(s[0], Mapped(s[1..], Escaped(7)));
    }
  }

  lemma NothingIsSafe()
    ensures Safe("")
  {
  }
}
