/** C strings in a buffer, and strtok_r, which cuts them up in place. */
module Strtok {
  const NUL: char := '\0'

  // Text as a C string can hold it.
  predicate IsText(s: string) {
    NUL !in s
  }

  // The string that starts at p.
  predicate Holds(buffer: seq<char>, p: nat, s: string) {
    IsText(s) && p + |s| < |buffer| && buffer[p..p + |s|] == s && buffer[p + |s|] == NUL
  }

  // strspn with one delimiter.
  function Lead(s: string, d: char): (k: nat)
    ensures k <= |s| && (k < |s| ==> s[k] != d) && forall i | 0 <= i < k :: s[i] == d
  {
    if s != [] && s[0] == d then 1 + Lead(s[1..], d) else 0
  }

  // strcspn with one delimiter.
  function Span(s: string, d: char): (n: nat)
    ensures n <= |s| && (n < |s| ==> s[n] == d) && d !in s[..n]
  {
    if s == [] || s[0] == d then 0 else 1 + Span(s[1..], d)
  }

  // The next token, and what is behind it.
  datatype Piece = Nothing | Piece(token: string, rest: string)

  function Next(s: string, d: char): (r: Piece)
    ensures r.Piece? ==> |r.rest| < |s|
  {
    var t := s[Lead(s, d)..];
    if |t| == 0 then Nothing else Piece(t[..Span(t, d)], Behind(t, Span(t, d)))
  }

  // What is left of t behind a delimiter at n.
  function Behind(t: string, n: nat): (r: string)
    requires n <= |t|
    ensures |r| < |t| || t == []
  {
    if n < |t| then t[n + 1..] else []
  }

  // All tokens.
  function Tokens(s: string, d: char): seq<string>
    decreases |s|
  {
    match Next(s, d)
    case Nothing => []
    case Piece(token, rest) => [token] + Tokens(rest, d)
  }

  method SkipLead(a: array<char>, p: nat, d: char, ghost s: string) returns (b: nat)
    requires d != NUL && Holds(a[..], p, s)
    ensures b == p + Lead(s, d) < a.Length && (a[b] == NUL <==> Lead(s, d) == |s|)
  {
    b := p;
    assert s[0..] == s;
    while a[b] == d
      invariant p <= b <= p + |s| && Lead(s, d) == (b - p) + Lead(s[b - p..], d)
      decreases p + |s| - b
    {
      assert a[b] == s[b - p..][0] && s[b - p..][1..] == s[b + 1 - p..];
      b := b + 1;
    }
    assert b < p + |s| ==> a[b] == s[b - p..][0];
  }

  method FindEnd(a: array<char>, p: nat, d: char, ghost s: string) returns (e: nat)
    requires d != NUL && Holds(a[..], p, s)
    ensures e == p + Span(s, d) < a.Length && (a[e] == NUL <==> Span(s, d) == |s|)
  {
    e := p;
    assert s[0..] == s;
    while a[e] != NUL && a[e] != d
      invariant p <= e <= p + |s| && Span(s, d) == (e - p) + Span(s[e - p..], d)
      decreases p + |s| - e
    {
      assert a[e] == s[e - p..][0] && s[e - p..][1..] == s[e + 1 - p..];
      e := e + 1;
    }
    assert e < p + |s| ==> a[e] == s[e - p..][0];
  }

  lemma HoldsSuffix(buffer: seq<char>, p: nat, s: string, m: nat)
    requires Holds(buffer, p, s) && m <= |s|
    ensures Holds(buffer, p + m, s[m..])
  {
  }

  // The buffer behind the cut.
  function CutAt(buffer: seq<char>, e: nat): (r: seq<char>)
    requires e < |buffer|
    ensures buffer[e] == NUL ==> r == buffer
  {
    buffer[e := NUL]
  }

  // The text t at b was cut at n.
  ghost predicate Cut(before: seq<char>, b: nat, t: string, n: nat, after: seq<char>, save: nat) {
    && n <= |t| && b + n < |before| && after == CutAt(before, b + n)
    && Holds(after, b, t[..n]) && Holds(after, save, Behind(t, n))
    && save == if n < |t| then b + n + 1 else b + n
  }

  // The string s at p was cut behind its first token; token < 0 stands for NULL.
  ghost predicate Tokenised(before: seq<char>, p: nat, s: string, d: char, after: seq<char>, token: int, save: nat) {
    var b, t := p + Lead(s, d), s[Lead(s, d)..];
    if |t| == 0 then token == -1 && after == before && save == b
    else token == b && Cut(before, b, t, Span(t, d), after, save)
  }

  // What the tokeniser leaves.
  lemma TokenFound(cells: seq<char>, p: nat, rest: string, d: char, after: seq<char>, token: int, save: nat)
      returns (s: string, n: nat)
    requires Holds(cells, p, rest) && Tokenised(cells, p, rest, d, after, token, save) && token >= 0
    ensures s == rest[Lead(rest, d)..] && n == Span(s, d) && 0 < n <= |s| && s[0] != d
    ensures Next(rest, d) == Piece(s[..n], Behind(s, n)) && token == p + Lead(rest, d)
    ensures Cut(cells, token, s, n, after, save) && Holds(after, save, Behind(s, n)) && Holds(after, token, s[..n])
    ensures token + n < |cells| && save == (if n < |s| then token + n + 1 else token + n)
    ensures token + |s| == p + |rest| == save + |Behind(s, n)|
  {
    s := rest[Lead(rest, d)..];
    n := Span(s, d);
    assert s[0] == rest[Lead(rest, d)];
  }

  lemma CutBy(before: seq<char>, b: nat, t: string, n: nat, e: nat, after: seq<char>, save: nat)
    requires Holds(before, b, t) && n <= |t| && e == b + n && after == CutAt(before, e)
    requires save == if n < |t| then e + 1 else e
    ensures Cut(before, b, t, n, after, save)
  {
  }

  // What the two searches have found.
  lemma TokenisedBy(before: seq<char>, p: nat, s: string, d: char, b: nat, t: string, n: nat, after: seq<char>,
      save: nat)
    requires t == s[Lead(s, d)..] && t != [] && b == p + Lead(s, d) && n == Span(t, d)
    requires Cut(before, b, t, n, after, save)
    ensures Tokenised(before, p, s, d, after, b, save)
  {
  }

  lemma NothingFound(before: seq<char>, p: nat, s: string, d: char)
    requires s[Lead(s, d)..] == []
    ensures Tokenised(before, p, s, d, before, -1, p + Lead(s, d))
  {
  }

  // Where the first token begins and ends.
  method FindToken(a: array<char>, p: nat, d: char, ghost s: string) returns (b: nat, e: nat)
    requires d != NUL && Holds(a[..], p, s)
    ensures b == p + Lead(s, d) < a.Length && (a[b] == NUL <==> s[Lead(s, d)..] == [])
    ensures Holds(a[..], b, s[Lead(s, d)..])
    ensures a[b] != NUL ==> e == b + Span(s[Lead(s, d)..], d) < a.Length && (a[e] == NUL <==> e == p + |s|)
  {
    b := SkipLead(a, p, d, s);
    e := b;
    HoldsSuffix(a[..], p, s, Lead(s, d));
    if a[b] != NUL {
      e := FindEnd(a, b, d, s[Lead(s, d)..]);
    }
  }

  // The delimiter at e becomes a terminator; the rest begins behind it.
  method CutCell(a: array<char>, e: nat) returns (save: nat)
    requires e < a.Length
    modifies a
    ensures a[..] == CutAt(old(a[..]), e) && save == if old(a[e]) == NUL then e else e + 1
  {
    if a[e] == NUL {
      return e;
    }
    a[e] := NUL;
    return e + 1;
  }

  method StrtokR(a: array<char>, p: nat, d: char, ghost s: string) returns (token: int, save: nat)
    requires d != NUL && Holds(a[..], p, s)
    modifies a
    ensures Tokenised(old(a[..]), p, s, d, a[..], token, save)
  {
    ghost var before, t := a[..], s[Lead(s, d)..];
    var b, e := FindToken(a, p, d, s);
    if a[b] == NUL {
      NothingFound(before, p, s, d);
      return -1, b;
    }
    save := CutCell(a, e);
    CutBy(before, b, t, e - b, e, a[..], save);
    TokenisedBy(before, p, s, d, b, t, e - b, a[..], save);
    token := b;
  }

  // ----- Texts joined by a delimiter

  function Join(texts: seq<string>, d: char): string {
    if texts == [] then [] else if |texts| == 1 then texts[0] else texts[0] + [d] + Join(texts[1..], d)
  }

  predicate Plain(text: string, d: char) {
    text != [] && d !in text
  }

  lemma {:induction false} SpanOf(token: string, d: char, rest: string)
    requires d !in token && (rest == [] || rest[0] == d)
    ensures Span(token + rest, d) == |token|
  {
    if token != [] {
      assert (token + rest)[1..] == token[1..] + rest;
      SpanOf(token[1..], d, rest);
    } else {
      assert token + rest == rest;
    }
  }

  lemma FirstToken(token: string, d: char, rest: string)
    requires token != [] && d !in token
    ensures Next(token + [d] + rest, d) == Piece(token, rest)
    ensures Next(token, d) == Piece(token, [])
  {
    SpanOf(token, d, [d] + rest);
    SpanOf(token, d, []);
    var s := token + [d] + rest;
    assert s == token + ([d] + rest) && s[0..] == s && token + [] == token && token[0..] == token;
    assert s[..|token|] == token && s[|token| + 1..] == rest;
  }

  lemma TokensStep(text: string, d: char, rest: string)
    requires Plain(text, d)
    ensures Tokens(text + [d] + rest, d) == [text] + Tokens(rest, d)
  {
    FirstToken(text, d, rest);
  }

  lemma OneToken(text: string, d: char)
    requires Plain(text, d)
    ensures Tokens(text, d) == [text]
  {
    FirstToken(text, d, []);
    assert Tokens([], d) == [];
  }

  // A delimiter in front is skipped.
  lemma LeadingDelimiter(d: char, rest: string)
    ensures Tokens([d] + rest, d) == Tokens(rest, d)
  {
  }

  function NonEmpty(texts: seq<string>): seq<string> {
    if texts == [] then [] else (if texts[0] == [] then [] else [texts[0]]) + NonEmpty(texts[1..])
  }

  // They fall into the same texts, without the empty ones.
  lemma {:induction false} TokensOfJoin(texts: seq<string>, d: char)
    requires forall i | 0 <= i < |texts| :: d !in texts[i]
    ensures Tokens(Join(texts, d), d) == NonEmpty(texts)
  {
    if |texts| > 1 {
      TokensOfJoin(texts[1..], d);
      JoinStep(texts, d);
    } else if |texts| == 1 && texts[0] != [] {
      OneToken(texts[0], d);
    }
  }

  lemma JoinStep(texts: seq<string>, d: char)
    requires |texts| > 1 && d !in texts[0]
    ensures var rest := Tokens(Join(texts[1..], d), d);
      Tokens(Join(texts, d), d) == if texts[0] == [] then rest else [texts[0]] + rest
  {
    if texts[0] == [] {
      assert Join(texts, d) == [d] + Join(texts[1..], d);
      LeadingDelimiter(d, Join(texts[1..], d));
    } else {
      TokensStep(texts[0], d, Join(texts[1..], d));
    }
  }

  lemma {:induction false} NoneEmpty(texts: seq<string>)
    requires forall i | 0 <= i < |texts| :: texts[i] != []
    ensures NonEmpty(texts) == texts
  {
    if texts != [] {
      NoneEmpty(texts[1..]);
    }
  }

  lemma TokensOfPlain(texts: seq<string>, d: char)
    requires forall i | 0 <= i < |texts| :: Plain(texts[i], d)
    ensures Tokens(Join(texts, d), d) == texts
  {
    TokensOfJoin(texts, d);
    NoneEmpty(texts);
  }
}
