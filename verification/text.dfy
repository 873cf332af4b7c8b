/** `split` (src/obj_parser.cpp): the tokens that repeated `std::getline`
    calls on a string stream extract with a one-character delimiter.  An
    empty string gives no token; a delimiter at the very end gives no empty
    last token; a delimiter at the start, or two in a row, give empty
    tokens. */
module Text {

  /** Index of the first `d` in `s`, or `|s|` when there is none. */
  function FirstIndex(s: string, d: char): (i: nat)
    ensures i <= |s|
    ensures forall j :: 0 <= j < i ==> s[j] != d
    ensures i < |s| ==> s[i] == d
    decreases |s|
  {
    if s == [] || s[0] == d then 0 else 1 + FirstIndex(s[1..], d)
  }

  function Split(s: string, d: char): (tokens: seq<string>)
    ensures forall i :: 0 <= i < |tokens| ==> d !in tokens[i]
    ensures tokens == [] <==> s == []
    decreases |s|
  {
    if s == [] then []
    else
      var i := FirstIndex(s, d);
      if i == |s| then [s] else [s[..i]] + Split(s[i + 1..], d)
  }

  /** The first token of a non-empty string is everything before its first
      delimiter. */
  lemma SplitHead(s: string, d: char)
    requires s != []
    ensures Split(s, d) != [] && Split(s, d)[0] == s[..FirstIndex(s, d)]
  {
    assert s[..|s|] == s;
  }

  /** The tokens written back with `d` between neighbours. */
  function Join(tokens: seq<string>, d: char): string
    decreases |tokens|
  {
    if tokens == [] then []
    else if |tokens| == 1 then tokens[0]
    else tokens[0] + [d] + Join(tokens[1..], d)
  }

  predicate EndsWith(s: string, d: char) {
    s != [] && s[|s| - 1] == d
  }

  /** What splitting drops from the end of `s`. */
  function Trailer(s: string, d: char): string {
    if EndsWith(s, d) then [d] else []
  }

  /** Splitting loses exactly the delimiters between tokens and, when there
      is one, the delimiter at the end. */
  lemma {:induction false} JoinSplit(s: string, d: char)
    ensures Join(Split(s, d), d) + Trailer(s, d) == s
    decreases |s|
  {
    if s != [] {
      var i := FirstIndex(s, d);
      if i == |s| {
        NoDelimiter(s, d);
      } else if i + 1 == |s| {
        LastDelimiter(s, d);
      } else {
        JoinSplit(s[i + 1..], d);
        JoinSplitStep(s, d, i);
      }
    }
  }

  lemma NoDelimiter(s: string, d: char)
    requires s != [] && FirstIndex(s, d) == |s|
    ensures Join(Split(s, d), d) + Trailer(s, d) == s
  {
    assert s[|s| - 1] != d;
  }

  lemma LastDelimiter(s: string, d: char)
    requires s != [] && FirstIndex(s, d) == |s| - 1
    ensures Join(Split(s, d), d) + Trailer(s, d) == s
  {
    var i := |s| - 1;
    assert Split(s, d) == [s[..i]];
    Decompose(s, d, i);
  }

  /** The inductive step: the first token and its delimiter, then the rest
      of the string, which ends the same way. */
  lemma JoinSplitStep(s: string, d: char, i: int)
    requires i == FirstIndex(s, d) && i + 1 < |s|
    requires Join(Split(s[i + 1..], d), d) + Trailer(s[i + 1..], d) == s[i + 1..]
    ensures Join(Split(s, d), d) + Trailer(s, d) == s
  {
    var rest := s[i + 1..];
    SplitStep(s, d, i);
    JoinCons(s[..i], Split(rest, d), d);
    EndsWithSuffix(s, d, i + 1);
    Decompose(s, d, i);
    Reassemble(s[..i], d, Join(Split(rest, d), d), Trailer(rest, d), rest, s);
  }

  lemma Reassemble(x: string, d: char, j: string, tail: string, rest: string, s: string)
    requires j + tail == rest && s == x + [d] + rest
    ensures (x + [d] + j) + tail == s
  {
  }

  /** Splitting at the first delimiter, when more text follows it. */
  lemma SplitStep(s: string, d: char, i: int)
    requires i == FirstIndex(s, d) && i + 1 < |s|
    ensures Split(s, d) == [s[..i]] + Split(s[i + 1..], d)
  {
  }

  lemma EndsWithSuffix(s: string, d: char, j: int)
    requires 0 <= j < |s|
    ensures EndsWith(s, d) == EndsWith(s[j..], d)
  {
    assert s[|s| - 1] == s[j..][|s| - j - 1];
  }

  lemma Decompose(s: string, d: char, i: int)
    requires 0 <= i < |s| && s[i] == d
    ensures s == s[..i] + [d] + s[i + 1..]
  {
  }

  lemma JoinCons(x: string, ts: seq<string>, d: char)
    requires ts != []
    ensures Join([x] + ts, d) == x + [d] + Join(ts, d)
  {
    assert ([x] + ts)[1..] == ts;
  }

  lemma FirstIndexAfter(a: string, d: char, b: string)
    requires d !in a
    ensures FirstIndex(a + [d] + b, d) == |a|
  {
    var s := a + [d] + b;
    assert s[|a|] == d;
    assert forall j :: 0 <= j < |a| ==> s[j] == a[j];
  }

  /** A delimiter-free token followed by the delimiter splits off first. */
  lemma SplitCons(a: string, d: char, b: string)
    requires d !in a
    requires b != []
    ensures Split(a + [d] + b, d) == [a] + Split(b, d)
  {
    var s := a + [d] + b;
    FirstIndexAfter(a, d, b);
    assert s[..|a|] == a;
    assert s[|a| + 1..] == b;
  }

  /** Tokens free of the delimiter, whose last token is not empty, survive
      joining and splitting again. */
  lemma {:induction false} SplitJoin(tokens: seq<string>, d: char)
    requires forall i :: 0 <= i < |tokens| ==> d !in tokens[i]
    requires tokens == [] || tokens[|tokens| - 1] != []
    ensures Split(Join(tokens, d), d) == tokens
    decreases |tokens|
  {
    if |tokens| == 1 {
      var t := tokens[0];
      assert forall j :: 0 <= j < |t| ==> t[j] != d;
    } else if |tokens| > 1 {
      var rest := tokens[1..];
      SplitJoin(rest, d);
      assert Join(rest, d) != [];
      SplitCons(tokens[0], d, Join(rest, d));
    }
  }
}
