/**
 * Driver options, key=value items joined by commas, cut up in place by two nested
 * tokenisers that write into the same buffer.
 */
module OptDictModule {
  import opened Bytes
  import opened Strtok

  // Pointers into the storage; negative for NULL.
  datatype Item = Item(key: int, val: int)

  // ----- What the items mean

  function KeyOf(t: string): Option<string> {
    match Next(t, '=')
    case Nothing => None
    case Piece(key, _) => Some(key)
  }

  // The text from the second token on, up to the first separator that is not restored.
  function ValueOf(t: string): Option<string> {
    match Next(t, '=')
    case Nothing => None
    case Piece(_, rest) =>
      if Lead(rest, '=') == |rest| then None else Some(Restored(rest[Lead(rest, '=')..]))
  }

  // A separator is put back if it stands alone between two tokens.
  function Restored(s: string): (r: string)
    decreases |s|, 0
  {
    var n := Span(s, '=');
    if n == |s| then s else s[..n] + Rejoined(s[n + 1..])
  }

  function Rejoined(rest: string): string
    decreases |rest|, 1
  {
    if rest == [] || rest[0] == '=' then [] else "=" + Restored(rest)
  }

  // A text that comes back whole: no separator at either end, and none next to another.
  predicate Isolated(s: string) {
    s != [] && s[0] != '=' && s[|s| - 1] != '=' && forall i | 0 < i < |s| :: !(s[i - 1] == '=' && s[i] == '=')
  }

  // Which values come back: of key=value, the key always, and the value exactly if its own
  // separators are isolated.
  lemma KeyValue(key: string, value: string)
    requires key != [] && '=' !in key
    ensures KeyOf(key + "=" + value) == Some(key)
    ensures ValueOf(key + "=" + value) == Some(value) <==> Isolated(value)
  {
    var t := key + "=" + value;
    FirstToken(key, '=', value);
    var k := Lead(value, '=');
    if k < |value| {
      assert value[k..][0] != '=';
      if k == 0 {
        assert value[0..] == value;
        RestoredWhole(value);
      } else {
        assert value[0] == '=' && Restored(value[k..])[0] != '=';
      }
    }
  }

  // A text up to its first separator, and what follows it.
  lemma RestoredStep(x: string, rest: string)
    requires '=' !in x
    ensures Restored(x) == x
    ensures Restored(x + ("=" + rest)) == x + if rest == [] || rest[0] == '=' then [] else "=" + Restored(rest)
  {
    SpanOf(x, '=', []);
    SpanOf(x, '=', "=" + rest);
    var s := x + ("=" + rest);
    assert x + [] == x && s[..|x|] == x && s[|x| + 1..] == rest;
  }

  lemma IsolatedStep(x: string, rest: string)
    requires x != [] && '=' !in x
    ensures Isolated(x)
    ensures Isolated(x + ("=" + rest)) <==> rest != [] && rest[0] != '=' && Isolated(rest)
  {
    var s, n := x + ("=" + rest), |x|;
    if rest != [] && rest[0] != '=' {
      assert forall i | 0 <= i < |rest| :: s[n + 1 + i] == rest[i];
      if Isolated(rest) {
        forall i | 0 < i < |s|
          ensures !(s[i - 1] == '=' && s[i] == '=')
        {
          assert i > n + 1 ==> s[i] == rest[i - n - 1] && s[i - 1] == rest[i - n - 2];
        }
      }
      if Isolated(s) {
        forall i | 0 < i < |rest|
          ensures !(rest[i - 1] == '=' && rest[i] == '=')
        {
          assert s[n + 1 + i] == rest[i] && s[n + i] == rest[i - 1];
        }
      }
    } else if rest != [] {
      assert s[n] == '=' && s[n + 1] == '=';
    }
  }

  lemma SplitAt(s: string, n: nat)
    requires n < |s| && s[n] == '='
    ensures s == s[..n] + ("=" + s[n + 1..])
  {
  }

  lemma SplitAtSpan(s: string)
    requires s != [] && s[0] != '='
    ensures var n := Span(s, '='); 0 < n && '=' !in s[..n]
    ensures var n := Span(s, '='); if n < |s| then s == s[..n] + ("=" + s[n + 1..]) else s == s[..n]
  {
    var n := Span(s, '=');
    if n < |s| {
      SplitAt(s, n);
    }
  }

  lemma AppendCancels(x: string, y: string, z: string)
    ensures x + y == x + z <==> y == z
  {
    assert (x + y)[|x|..] == y && (x + z)[|x|..] == z;
  }

  lemma {:induction false} RestoredWhole(s: string)
    requires s != [] && s[0] != '='
    ensures Restored(s) == s <==> Isolated(s)
    decreases |s|
  {
    SplitAtSpan(s);
    var n := Span(s, '=');
    var x, rest := s[..n], if n < |s| then s[n + 1..] else [];
    RestoredStep(x, rest);
    IsolatedStep(x, rest);
    if n < |s| && rest != [] && rest[0] != '=' {
      RestoredWhole(rest);
      AppendCancels(x, "=" + Restored(rest), "=" + rest);
      AppendCancels("=", Restored(rest), rest);
    }
  }

  // In general the value that comes back is what lies between the leading separators and the
  // first one that is doubled or at the end.
  lemma ValueUpTo(key: string, value: string)
    requires key != [] && '=' !in key
    ensures var k := Lead(value, '='); var t := key + "=" + value;
      if k == |value| then ValueOf(t) == None
      else ValueOf(t).Some? && UpToDoubled(value[k..], ValueOf(t).value)
  {
    var k := Lead(value, '=');
    FirstToken(key, '=', value);
    if k < |value| {
      assert value[k..][0] != '=';
      RestoredUpTo(value[k..]);
    }
  }

  // r is the part of s before its first separator that is doubled or at the end.
  predicate UpToDoubled(s: string, r: string) {
    && r <= s && Isolated(r)
    && (|r| < |s| ==> s[|r|] == '=' && (|r| + 1 == |s| || s[|r| + 1] == '='))
  }

  lemma UpToDoubledStep(x: string, rest: string, r: string)
    requires x != [] && '=' !in x && UpToDoubled(rest, r)
    ensures UpToDoubled(x + ("=" + rest), x + ("=" + r))
  {
    IsolatedStep(x, r);
    var s, n := x + ("=" + rest), |x| + 1 + |r|;
    assert |r| < |rest| ==> s[n] == rest[|r|];
    assert |r| + 1 < |rest| ==> s[n + 1] == rest[|r| + 1];
  }

  lemma {:induction false} RestoredUpTo(s: string)
    requires s != [] && s[0] != '='
    ensures UpToDoubled(s, Restored(s))
    decreases |s|
  {
    SplitAtSpan(s);
    var n := Span(s, '=');
    var x, rest := s[..n], if n < |s| then s[n + 1..] else [];
    RestoredStep(x, rest);
    IsolatedStep(x, rest);
    if n < |s| && rest != [] && rest[0] != '=' {
      RestoredUpTo(rest);
      UpToDoubledStep(x, rest, Restored(rest));
    } else {
      assert x + [] == x;
    }
  }

  function Pairs(keys: seq<string>, values: seq<string>): seq<string>
    requires |keys| == |values|
  {
    seq(|keys|, i requires 0 <= i < |keys| => keys[i] + "=" + values[i])
  }

  // Pairs joined into options come back as the same pairs, except for the values whose own
  // separators are not isolated.
  lemma PairsComeBack(keys: seq<string>, values: seq<string>)
    requires |keys| == |values|
    requires forall i | 0 <= i < |keys| :: keys[i] != [] && '=' !in keys[i] && ',' !in keys[i] && ',' !in values[i]
    ensures var texts := Tokens(Join(Pairs(keys, values), ','), ',');
      && |texts| == |keys|
      && forall i | 0 <= i < |keys| ::
           KeyOf(texts[i]) == Some(keys[i]) && (ValueOf(texts[i]) == Some(values[i]) <==> Isolated(values[i]))
  {
    TokensOfPlain(Pairs(keys, values), ',');
    forall i | 0 <= i < |keys|
      ensures KeyOf(Pairs(keys, values)[i]) == Some(keys[i])
      ensures ValueOf(Pairs(keys, values)[i]) == Some(values[i]) <==> Isolated(values[i])
    {
      KeyValue(keys[i], values[i]);
    }
  }

  // ----- One item, between b and the NUL behind it

  // Only the cells of an item change.
  ghost predicate Within(before: seq<char>, after: seq<char>, b: nat, e: nat) {
    |after| == |before| && forall i | 0 <= i < |before| && !(b <= i < e) :: after[i] == before[i]
  }

  lemma HoldsStill(before: seq<char>, after: seq<char>, p: nat, s: string)
    requires Holds(before, p, s) && |after| == |before|
    requires forall i | p <= i <= p + |s| :: after[i] == before[i]
    ensures Holds(after, p, s)
  {
  }

  // The tokeniser stands at p, rest lies ahead of it, and the key and value found so far are
  // in place; joined is what has come back of the value.
  ghost predicate Progress(cells: seq<char>, t: string, b: nat, p: nat, rest: string, item: Item, joined: string) {
    && b <= p && p + |rest| == b + |t| && Holds(cells, p, rest)
    && (item.key < 0 ==> item.val < 0 && rest == t)
    && (item.key >= 0 ==> KeyInPlace(cells, t, b, p, rest, item))
    && (item.val >= 0 ==> item.key >= 0 && ValueInPlace(cells, t, p, rest, item, joined))
  }

  ghost predicate KeyInPlace(cells: seq<char>, t: string, b: nat, p: nat, rest: string, item: Item)
    requires item.key >= 0
  {
    && KeyOf(t).Some? && Holds(cells, item.key, KeyOf(t).value)
    && b <= item.key
    && item.key + |KeyOf(t).value| < (if item.val >= 0 then item.val else if rest == [] then p + 1 else p)
    && (item.val < 0 ==> Next(t, '=').rest == rest)
  }

  ghost predicate ValueInPlace(cells: seq<char>, t: string, p: nat, rest: string, item: Item, joined: string)
    requires item.val >= 0
  {
    var end := item.val + |joined|;
    && Holds(cells, item.val, joined) && joined != [] && ValueOf(t).Some?
    && if end + 1 == p then ValueOf(t).value == joined + Rejoined(rest)
       else ValueOf(t).value == joined && (end + 1 < p || (rest == [] && end <= p))
  }

  lemma CutWithin(before: seq<char>, p: nat, rest: string, after: seq<char>, token: int, save: nat, b: nat)
    requires Holds(before, p, rest) && Tokenised(before, p, rest, '=', after, token, save) && token >= 0 && b <= p
    ensures token < p + |rest| && |Next(rest, '=').rest| < |rest| && Within(before, after, b, p + |rest|)
  {
  }

  lemma FirstPiece(cells: seq<char>, t: string, b: nat, p: nat, rest: string, item: Item, joined: string,
      after: seq<char>, token: int, save: nat)
    requires Progress(cells, t, b, p, rest, item, joined) && item.key < 0
    requires Tokenised(cells, p, rest, '=', after, token, save) && token >= 0
    ensures Progress(after, t, b, save, Next(rest, '=').rest, item.(key := token), joined)
  {
  }

  // What lies before the cut stays.
  lemma HeldBefore(before: seq<char>, e: nat, p: nat, s: string)
    requires Holds(before, p, s) && p + |s| < e < |before|
    ensures Holds(CutAt(before, e), p, s)
  {
  }

  lemma FirstValue(t: string, rest: string)
    requires Next(t, '=').Piece? && Next(t, '=').rest == rest && Next(rest, '=').Piece?
    ensures ValueOf(t).Some?
    ensures var s := rest[Lead(rest, '=')..]; var n := Span(s, '=');
      ValueOf(t).value == if n == |s| then s[..n] else s[..n] + Rejoined(Behind(s, n))
  {
  }

  lemma ValueStarts(cells: seq<char>, t: string, rest: string, key: int, after: seq<char>, token: nat, n: nat,
      save: nat)
    requires Next(t, '=').Piece? && Next(t, '=').rest == rest && Next(rest, '=').Piece?
    requires var s := rest[Lead(rest, '=')..]; n == Span(s, '=') && s[0] != '=' && Cut(cells, token, s, n, after, save)
    ensures ValueInPlace(after, t, save, Next(rest, '=').rest, Item(key, token), Next(rest, '=').token)
  {
    FirstValue(t, rest);
    var s := rest[Lead(rest, '=')..];
    assert n > 0;
  }

  lemma SecondKey(cells: seq<char>, t: string, b: nat, p: nat, rest: string, item: Item, joined: string,
      after: seq<char>, token: int, save: nat)
    requires Progress(cells, t, b, p, rest, item, joined) && item.key >= 0 && item.val < 0
    requires Tokenised(cells, p, rest, '=', after, token, save) && token >= 0
    ensures KeyInPlace(after, t, b, save, Next(rest, '=').rest, item.(val := token))
  {
    var s, n := TokenFound(cells, p, rest, '=', after, token, save);
    HeldBefore(cells, token + n, item.key, KeyOf(t).value);
  }

  lemma SecondPiece(cells: seq<char>, t: string, b: nat, p: nat, rest: string, item: Item, joined: string,
      after: seq<char>, token: int, save: nat)
    requires Progress(cells, t, b, p, rest, item, joined) && item.key >= 0 && item.val < 0
    requires Tokenised(cells, p, rest, '=', after, token, save) && token >= 0
    ensures Progress(after, t, b, save, Next(rest, '=').rest, item.(val := token), Next(rest, '=').token)
  {
    SecondKey(cells, t, b, p, rest, item, joined, after, token, save);
    var s, n := TokenFound(cells, p, rest, '=', after, token, save);
    ValueStarts(cells, t, rest, item.key, after, token, n, save);
  }

  // Putting a separator back joins what it had parted.
  lemma HoldsJoined(cells: seq<char>, p: nat, x: string, y: string)
    requires Holds(cells, p, x) && Holds(cells, p + |x| + 1, y)
    ensures Holds(cells[p + |x| := '='], p, x + "=" + y)
  {
  }

  lemma RejoinedStep(rest: string)
    requires rest != [] && rest[0] != '='
    ensures Lead(rest, '=') == 0 && Next(rest, '=').Piece?
    ensures Rejoined(rest) == "=" + Next(rest, '=').token + Rejoined(Next(rest, '=').rest)
  {
  }

  lemma JoinAssociates(x: string, y: string, z: string)
    ensures x + ("=" + y + z) == x + "=" + y + z
  {
  }

  // A further token behind a single separator is joined to the value.
  lemma FurtherJoined(cells: seq<char>, t: string, p: nat, rest: string, key: int, val: nat, joined: string,
      after: seq<char>, save: nat)
    requires ValueInPlace(cells, t, p, rest, Item(key, val), joined) && p == val + |joined| + 1
    requires Holds(cells, p, rest) && Tokenised(cells, p, rest, '=', after, p, save)
    ensures p < |after| && ValueInPlace(after[p - 1 := '='], t, save, Next(rest, '=').rest, Item(key, val),
      joined + "=" + Next(rest, '=').token)
  {
    var s, n := TokenFound(cells, p, rest, '=', after, p, save);
    HeldBefore(cells, p + n, val, joined);
    assert rest[0] == s[0];
    RejoinedStep(rest);
    HoldsJoined(after, val, joined, s[..n]);
    JoinAssociates(joined, s[..n], Rejoined(Behind(s, n)));
  }

  // What lies before a separator that is put back stays.
  lemma HeldApart(cells: seq<char>, p: nat, rest: string, after: seq<char>, token: int, save: nat, val: nat,
      joined: string)
    requires Holds(cells, p, rest) && Tokenised(cells, p, rest, '=', after, token, save)
    requires Holds(cells, val, joined) && token > val + |joined| + 1
    ensures token < save && token < |after| && Holds(after[token - 1 := '='], val, joined)
  {
    var s, n := TokenFound(cells, p, rest, '=', after, token, save);
    HeldBefore(cells, token + n, val, joined);
    HoldsStill(after, after[token - 1 := '='], val, joined);
  }

  // Behind several, it is not.
  lemma FurtherApart(cells: seq<char>, t: string, p: nat, rest: string, key: int, val: nat, joined: string,
      after: seq<char>, token: int, save: nat)
    requires ValueInPlace(cells, t, p, rest, Item(key, val), joined) && token > val + |joined| + 1
    requires Holds(cells, p, rest) && Tokenised(cells, p, rest, '=', after, token, save)
    ensures token < |after| && ValueInPlace(after[token - 1 := '='], t, save, Next(rest, '=').rest, Item(key, val),
      joined)
  {
    HeldApart(cells, p, rest, after, token, save, val, joined);
  }

  lemma FurtherKey(cells: seq<char>, t: string, b: nat, p: nat, rest: string, item: Item, joined: string,
      after: seq<char>, token: int, save: nat)
    requires Progress(cells, t, b, p, rest, item, joined) && item.val >= 0
    requires Tokenised(cells, p, rest, '=', after, token, save) && token >= 0
    ensures b < token < |after| && KeyInPlace(after[token - 1 := '='], t, b, save, Next(rest, '=').rest, item)
  {
    var s, n := TokenFound(cells, p, rest, '=', after, token, save);
    HeldBefore(cells, token + n, item.key, KeyOf(t).value);
    HoldsStill(after, after[token - 1 := '='], item.key, KeyOf(t).value);
  }

  lemma FurtherRest(cells: seq<char>, p: nat, rest: string, after: seq<char>, token: int, save: nat, e: nat)
    requires Holds(cells, p, rest) && Tokenised(cells, p, rest, '=', after, token, save) && 0 < token && e == p + |rest|
    ensures token < |after| && Holds(after[token - 1 := '='], save, Next(rest, '=').rest)
    ensures p <= save && save + |Next(rest, '=').rest| == e
  {
  }

  lemma FurtherValue(cells: seq<char>, t: string, p: nat, rest: string, item: Item, joined: string,
      after: seq<char>, token: int, save: nat) returns (joined': string)
    requires item.val >= 0 && ValueInPlace(cells, t, p, rest, item, joined)
    requires Holds(cells, p, rest) && Tokenised(cells, p, rest, '=', after, token, save) && 0 < token < |after|
    ensures ValueInPlace(after[token - 1 := '='], t, save, Next(rest, '=').rest, item, joined')
  {
    assert token == p + Lead(rest, '=');
    if token == item.val + |joined| + 1 {
      joined' := joined + "=" + Next(rest, '=').token;
      FurtherJoined(cells, t, p, rest, item.key, item.val, joined, after, save);
    } else {
      joined' := joined;
      FurtherApart(cells, t, p, rest, item.key, item.val, joined, after, token, save);
    }
  }

  lemma FurtherPiece(cells: seq<char>, t: string, b: nat, p: nat, rest: string, item: Item, joined: string,
      after: seq<char>, token: int, save: nat) returns (joined': string)
    requires Progress(cells, t, b, p, rest, item, joined) && item.val >= 0
    requires Tokenised(cells, p, rest, '=', after, token, save) && token >= 0
    ensures b < token < |after|
    ensures Progress(after[token - 1 := '='], t, b, save, Next(rest, '=').rest, item, joined')
  {
    FurtherKey(cells, t, b, p, rest, item, joined, after, token, save);
    FurtherRest(cells, p, rest, after, token, save, b + |t|);
    joined' := FurtherValue(cells, t, p, rest, item, joined, after, token, save);
  }

  // What the loop does with a token.
  function ItemWith(item: Item, token: int): Item {
    if item.key < 0 then item.(key := token) else if item.val < 0 then item.(val := token) else item
  }

  lemma ItemStep(cells: seq<char>, t: string, b: nat, p: nat, rest: string, item: Item, joined: string,
      after: seq<char>, token: int, save: nat) returns (joined': string)
    requires Progress(cells, t, b, p, rest, item, joined)
    requires Tokenised(cells, p, rest, '=', after, token, save) && token >= 0
    ensures item.val >= 0 ==> b < token < |after|
    ensures Progress(if item.val >= 0 then after[token - 1 := '='] else after, t, b, save, Next(rest, '=').rest,
      ItemWith(item, token), joined')
  {
    if item.key < 0 {
      FirstPiece(cells, t, b, p, rest, item, joined, after, token, save);
      joined' := joined;
    } else if item.val < 0 {
      SecondPiece(cells, t, b, p, rest, item, joined, after, token, save);
      joined' := Next(rest, '=').token;
    } else {
      joined' := FurtherPiece(cells, t, b, p, rest, item, joined, after, token, save);
    }
  }

  // What an item points to.
  ghost predicate PointsTo(cells: seq<char>, p: int, text: Option<string>, b: nat, e: nat) {
    if text.None? then p < 0
    else b <= p && p + |text.value| <= e && Holds(cells, p, text.value)
  }

  ghost predicate Represents(cells: seq<char>, item: Item, t: string, b: nat, e: nat) {
    PointsTo(cells, item.key, KeyOf(t), b, e) && PointsTo(cells, item.val, ValueOf(t), b, e)
  }

  // No token is left.
  lemma KeyDone(cells: seq<char>, t: string, b: nat, p: nat, rest: string, item: Item, joined: string)
    requires Progress(cells, t, b, p, rest, item, joined) && Lead(rest, '=') == |rest|
    ensures PointsTo(cells, item.key, KeyOf(t), b, b + |t|)
  {
  }

  lemma ValueDone(cells: seq<char>, t: string, b: nat, p: nat, rest: string, item: Item, joined: string)
    requires Progress(cells, t, b, p, rest, item, joined) && Lead(rest, '=') == |rest|
    ensures PointsTo(cells, item.val, ValueOf(t), b, b + |t|)
  {
    assert Rejoined(rest) == [];
  }

  // ----- The tokenisers

  method SplitItem(a: array<char>, token: nat, ghost t: string) returns (item: Item)
    requires Holds(a[..], token, t)
    modifies a
    ensures Within(old(a[..]), a[..], token, token + |t|)
    ensures Represents(a[..], item, t, token, token + |t|)
  {
    item := Item(-1, -1);
    var saveptr2 := token;
    ghost var rest, joined := t, [];
    while true
      invariant Progress(a[..], t, token, saveptr2, rest, item, joined)
      invariant Within(old(a[..]), a[..], token, token + |t|)
      decreases |rest|
    {
      ghost var cells, p := a[..], saveptr2;
      var subtoken;
      subtoken, saveptr2 := StrtokR(a, saveptr2, '=', rest);
      if subtoken < 0 {
        KeyDone(cells, t, token, p, rest, item, joined);
        ValueDone(cells, t, token, p, rest, item, joined);
        return;
      }
      ghost var cut := a[..];
      CutWithin(cells, p, rest, cut, subtoken, saveptr2, token);
      joined := ItemStep(cells, t, token, p, rest, item, joined, cut, subtoken, saveptr2);
      rest := Next(rest, '=').rest;
      if item.key < 0 {
        item := item.(key := subtoken);
      } else if item.val < 0 {
        item := item.(val := subtoken);
      } else {
        a[subtoken - 1] := '=';
        assert a[..] == cut[subtoken - 1 := '='];
      }
    }
  }

  ghost predicate AllRepresented(cells: seq<char>, items: seq<Item>, texts: seq<string>, e: nat) {
    |items| == |texts| && forall i | 0 <= i < |items| :: Represents(cells, items[i], texts[i], 0, e)
  }

  // Earlier items are out of reach of later writes.
  lemma StillRepresented(before: seq<char>, after: seq<char>, items: seq<Item>, texts: seq<string>, e: nat, e': nat)
    requires AllRepresented(before, items, texts, e) && |after| == |before| && e <= e'
    requires forall i | 0 <= i <= e && i < |before| :: after[i] == before[i]
    ensures AllRepresented(after, items, texts, e')
  {
    forall i | 0 <= i < |items|
      ensures Represents(after, items[i], texts[i], 0, e')
    {
      PointsStill(before, after, items[i].key, KeyOf(texts[i]), 0, e, e');
      PointsStill(before, after, items[i].val, ValueOf(texts[i]), 0, e, e');
    }
  }

  lemma PointsStill(before: seq<char>, after: seq<char>, p: int, text: Option<string>, b: nat, e: nat, e': nat)
    requires PointsTo(before, p, text, b, e) && |after| == |before| && e <= e'
    requires forall i | b <= i <= e && i < |before| :: after[i] == before[i]
    ensures PointsTo(after, p, text, 0, e')
  {
  }

  // Between two items: rest is ahead, and what was found lies below e.
  ghost predicate Processed(cells: seq<char>, options: string, p: nat, rest: string, items: seq<Item>, e: nat) {
    && Holds(cells, p, rest) && (rest != [] ==> items == [] || e < p)
    && |items| <= |Tokens(options, ',')|
    && AllRepresented(cells, items, Tokens(options, ',')[..|items|], e)
    && Tokens(options, ',')[|items|..] == Tokens(rest, ',')
  }

  lemma NextOfTokens(options: string, k: nat, rest: string)
    requires k <= |Tokens(options, ',')| && Tokens(options, ',')[k..] == Tokens(rest, ',') && Next(rest, ',').Piece?
    ensures k < |Tokens(options, ',')| && Tokens(options, ',')[k] == Next(rest, ',').token
    ensures Tokens(options, ',')[k + 1..] == Tokens(Next(rest, ',').rest, ',')
    ensures Tokens(options, ',')[..k + 1] == Tokens(options, ',')[..k] + [Next(rest, ',').token]
  {
    var all := Tokens(options, ',');
    assert all[k..][0] == Next(rest, ',').token;
    assert all[k + 1..] == all[k..][1..];
  }

  lemma OneMoreRepresented(before: seq<char>, after: seq<char>, items: seq<Item>, texts: seq<string>, e: nat,
      item: Item, t: string, b: nat, e': nat)
    requires AllRepresented(before, items, texts, e) && |after| == |before| && e' >= b
    requires items == [] || (e < b && forall i | 0 <= i < b && i < |before| :: after[i] == before[i])
    requires Represents(after, item, t, b, e')
    ensures AllRepresented(after, items + [item], texts + [t], e')
  {
    if items != [] {
      StillRepresented(before, after, items, texts, e, e');
    }
  }

  // Splitting an item touches neither what was found before it nor what is ahead.
  lemma ItemApart(cells: seq<char>, p: nat, rest: string, after: seq<char>, token: int, save: nat, split: seq<char>,
      e: nat)
    requires Holds(cells, p, rest) && Tokenised(cells, p, rest, ',', after, token, save) && token >= 0
    requires e == token + |Next(rest, ',').token| && Within(after, split, token, e)
    ensures p <= token && |split| == |cells| && forall i | 0 <= i < token && i < |cells| :: split[i] == cells[i]
    ensures Holds(split, save, Next(rest, ',').rest) && (Next(rest, ',').rest != [] ==> e < save)
  {
  }

  lemma ItemAdded(cells: seq<char>, options: string, p: nat, rest: string, items: seq<Item>, e: nat,
      after: seq<char>, token: int, save: nat, split: seq<char>, item: Item, e': nat)
    requires Processed(cells, options, p, rest, items, e)
    requires Tokenised(cells, p, rest, ',', after, token, save) && token >= 0
    requires e' == token + |Next(rest, ',').token| && Within(after, split, token, e')
    requires Represents(split, item, Next(rest, ',').token, token, e')
    ensures Processed(split, options, save, Next(rest, ',').rest, items + [item], e')
  {
    var all, k := Tokens(options, ','), |items|;
    ItemApart(cells, p, rest, after, token, save, split, e');
    NextOfTokens(options, k, rest);
    OneMoreRepresented(cells, split, items, all[..k], e, item, Next(rest, ',').token, token, e');
  }

  lemma ItemThere(cells: seq<char>, p: nat, rest: string, after: seq<char>, token: int, save: nat)
    requires Holds(cells, p, rest) && Tokenised(cells, p, rest, ',', after, token, save) && token >= 0
    ensures Next(rest, ',').Piece? && Holds(after, token, Next(rest, ',').token)
  {
  }

  lemma AllProcessed(cells: seq<char>, options: string, p: nat, rest: string, items: seq<Item>, e: nat)
    requires Processed(cells, options, p, rest, items, e) && Lead(rest, ',') == |rest| && e <= |cells|
    ensures AllRepresented(cells, items, Tokens(options, ','), |cells|)
  {
  }

  // One turn of the outer loop.
  method NextItem(a: array<char>, p: nat, ghost options: string, ghost rest: string, ghost items: seq<Item>,
      ghost e: nat)
      returns (token: int, save: nat, item: Item, ghost e': nat)
    requires Processed(a[..], options, p, rest, items, e) && e <= a.Length
    modifies a
    ensures token < 0 ==> AllRepresented(a[..], items, Tokens(options, ','), a.Length)
    ensures token >= 0 ==> Next(rest, ',').Piece? && e' <= a.Length
    ensures token >= 0 ==> Processed(a[..], options, save, Next(rest, ',').rest, items + [item], e')
  {
    ghost var cells := a[..];
    item, e' := Item(-1, -1), e;
    token, save := StrtokR(a, p, ',', rest);
    if token < 0 {
      AllProcessed(cells, options, p, rest, items, e);
      return;
    }
    ghost var after := a[..];
    ItemThere(cells, p, rest, after, token, save);
    item := SplitItem(a, token, Next(rest, ',').token);
    e' := token + |Next(rest, ',').token|;
    ItemAdded(cells, options, p, rest, items, e, after, token, save, a[..], item, e');
  }

  method OptDictProcess(driverOps: string) returns (storage: array<char>, items: seq<Item>)
    requires IsText(driverOps)
    ensures fresh(storage) && AllRepresented(storage[..], items, Tokens(driverOps, ','), storage.Length)
  {
    storage := new char[|driverOps| + 1](i requires 0 <= i <= |driverOps| =>
      if i < |driverOps| then driverOps[i] else NUL);
    items := [];
    var saveptr1 := 0;
    ghost var rest := driverOps;
    ghost var e: nat := 0;
    assert storage[0..|driverOps|] == driverOps;
    while true
      invariant fresh(storage) && Processed(storage[..], driverOps, saveptr1, rest, items, e) && e <= storage.Length
      decreases |rest|
    {
      var token, item;
      token, saveptr1, item, e := NextItem(storage, saveptr1, driverOps, rest, items, e);
      if token < 0 {
        return;
      }
      items, rest := items + [item], Next(rest, ',').rest;
    }
  }
}
