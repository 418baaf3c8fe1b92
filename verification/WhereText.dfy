/** The text of a WHERE clause, read back. In the text the parentheses around a query and those of a
    group look alike, so that what can be read depends on what the queries hold. */
module WhereText {
  import opened Basics
  import opened WhereBuilder

  /** The text of the clause of a program. */
  function ClauseText(items: seq<Item>): string {
    Text(Rendered(Flat(items), true))
  }

  // ---------------------------------------------------------------------------
  // Splitting the text into tokens
  // ---------------------------------------------------------------------------

  predicate NoParens(text: string) {
    forall i :: 0 <= i < |text| ==> text[i] != '(' && text[i] != ')'
  }

  /** The length of what precedes the first parenthesis. */
  function Run(text: string): (n: nat)
    ensures n <= |text| && NoParens(text[..n])
    ensures n < |text| ==> text[n] == '(' || text[n] == ')'
  {
    if text == "" || text[0] == '(' || text[0] == ')' then 0 else 1 + Run(text[1..])
  }

  /** An opening parenthesis belongs to a query if none follows at once. */
  function Lex(text: string): seq<Token>
    decreases |text|
  {
    if text == "" then []
    else if text[0] == ')' then [Close] + Lex(text[1..])
    else if text[0] == '(' then
      var n := Run(text[1..]);
      if n == 0 then [Open] + Lex(text[1..])
      else [Query(text[1..][..n])] + Lex(if n + 1 < |text| then text[1..][n + 1..] else "")
    else [Sep(text[..Run(text)])] + Lex(text[Run(text)..])
  }

  predicate PlainToken(token: Token) {
    match token
    case Query(query) => query != "" && NoParens(query)
    case Sep(sep) => sep != "" && NoParens(sep)
    case _ => true
  }

  predicate Begins(tokens: seq<Token>) {
    tokens != [] && (tokens[0].Query? || tokens[0].Open?)
  }

  /** A query or a group follows each separator and each opening parenthesis. */
  predicate Readable(tokens: seq<Token>) {
    tokens != [] ==>
      && PlainToken(tokens[0]) && Readable(tokens[1..])
      && (tokens[0].Sep? || tokens[0].Open? ==> Begins(tokens[1..]))
  }

  lemma {:induction false} RunEnds(a: string, b: string)
    requires NoParens(a) && (b != "" ==> b[0] == '(' || b[0] == ')')
    ensures Run(a + b) == |a| && (a + b)[..|a|] == a && (a + b)[|a|..] == b
  {
    if a == "" {
      assert a + b == b;
    } else {
      assert (a + b)[1..] == a[1..] + b;
      RunEnds(a[1..], b);
    }
  }

  lemma {:induction false} TextBegins(tokens: seq<Token>)
    requires tokens != [] && !tokens[0].Sep?
    ensures Text(tokens) != "" && (Text(tokens)[0] == '(' || Text(tokens)[0] == ')')
    ensures Begins(tokens) ==> Text(tokens)[0] == '('
  {
  }

  lemma {:induction false} LexQuery(query: string, rest: string)
    requires query != "" && NoParens(query)
    ensures Lex("(" + query + ")" + rest) == [Query(query)] + Lex(rest)
  {
    var text := "(" + query + ")" + rest;
    assert text[1..] == query + (")" + rest);
    RunEnds(query, ")" + rest);
    assert text[1..][|query| + 1..] == rest;
  }

  lemma {:induction false} LexReads(tokens: seq<Token>)
    requires Readable(tokens)
    ensures Lex(Text(tokens)) == tokens
  {
    if tokens != [] {
      var rest := tokens[1..];
      LexReads(rest);
      match tokens[0]
      case Query(query) => LexQuery(query, Text(rest));
      case Open =>
        TextBegins(rest);
        assert Text(tokens)[1..] == Text(rest);
      case Close => assert Text(tokens)[1..] == Text(rest);
      case Sep(sep) =>
        TextBegins(rest);
        RunEnds(sep, Text(rest));
    }
  }

  // ---------------------------------------------------------------------------
  // Programs without parentheses
  // ---------------------------------------------------------------------------

  /** No query and no separator contains a parenthesis. */
  predicate Plain(items: seq<Item>) {
    forall i :: 0 <= i < |items| ==> PlainItem(items[i])
  }

  predicate PlainItem(item: Item) {
    NoParens(item.sep) &&
    match item
    case Cond(_, query) => NoParens(query)
    case Group(_, items) => Plain(items)
  }

  lemma {:induction false} PrunedIsPlain(items: seq<Item>)
    requires Plain(items)
    ensures Plain(Pruned(items))
    decreases items
  {
    if items != [] {
      PrunedIsPlain(items[1..]);
      assert PlainItem(items[0]);
      match items[0]
      case Cond(_, _) =>
      case Group(_, nested) =>
        PrunedIsPlain(nested);
        if Pruned(nested) != [] { HeadlessIsPlain(Pruned(nested)); }
    }
  }

  lemma {:induction false} HeadlessIsPlain(items: seq<Item>)
    requires Plain(items)
    ensures Plain(HeadlessItems(items))
  {
    if items != [] { assert PlainItem(items[0]); }
  }

  lemma {:induction false} ReadableConcat(a: seq<Token>, b: seq<Token>)
    requires Readable(a) && Readable(b)
    ensures Readable(a + b)
  {
    if a == [] {
      assert a + b == b;
    } else {
      assert (a + b)[1..] == a[1..] + b;
      ReadableConcat(a[1..], b);
    }
  }

  lemma {:induction false} BodyIsReadable(item: Item)
    requires TidyItem(item) && PlainItem(item)
    ensures Readable(Body(item)) && Begins(Body(item))
    decreases item, 1
  {
    match item
    case Cond(_, query) => assert Body(item)[1..] == [];
    case Group(_, items) =>
      PrintedIsReadable(items);
      PrintedWithoutSep(items, []);
      assert PlainItem(items[0]) && TidyItem(items[0]);
      BodyIsReadable(items[0]);
      assert Printed(items) + [] == Printed(items);
      assert [Close][1..] == [];
      ReadableConcat(Printed(items), [Close]);
      assert Body(item) == [Open] + (Printed(items) + [Close]);
      assert ([Open] + (Printed(items) + [Close]))[1..] == Printed(items) + [Close];
  }

  lemma {:induction false} PrintedIsReadable(items: seq<Item>)
    requires Plain(items)
    requires forall i :: 0 <= i < |items| ==> (items[i].sep == "" || ProperSep(items[i].sep)) && TidyItem(items[i])
    ensures Readable(Printed(items))
    decreases items, 0
  {
    if items != [] {
      var body := Body(items[0]);
      assert PlainItem(items[0]);
      BodyIsReadable(items[0]);
      PrintedIsReadable(items[1..]);
      assert items[0].sep != "" ==> ([Sep(items[0].sep)] + body)[1..] == body;
      assert items[0].sep == "" ==> PrintedItem(items[0]) == body;
      ReadableConcat(PrintedItem(items[0]), Printed(items[1..]));
    }
  }

  lemma {:induction false} ClauseIsReadable(items: seq<Item>)
    requires Proper(items) && Plain(Meaning(items))
    ensures Readable(Rendered(Flat(items), true))
  {
    RenderedIsMeaning(items);
    PrunedIsTidy(items);
    PrintedIsReadable(Meaning(items));
  }

  predicate PlainTokens(tokens: seq<Token>) {
    forall i :: 0 <= i < |tokens| ==> TokenHasNoParens(tokens[i])
  }

  predicate TokenHasNoParens(token: Token) {
    match token
    case Query(query) => NoParens(query)
    case Sep(sep) => NoParens(sep)
    case _ => true
  }

  /** Whatever the text is, no token holds a parenthesis. */
  lemma {:induction false} LexIsPlain(text: string)
    ensures PlainTokens(Lex(text))
    decreases |text|
  {
    if text == "" {
    } else if text[0] == ')' {
      LexIsPlain(text[1..]);
    } else if text[0] == '(' {
      var n := Run(text[1..]);
      if n == 0 { LexIsPlain(text[1..]); } else { LexIsPlain(if n + 1 < |text| then text[1..][n + 1..] else ""); }
    } else {
      LexIsPlain(text[Run(text)..]);
    }
  }

  /** So no item does that is read from them. */
  lemma {:induction false} ItemsArePlain(tokens: seq<Token>, sep: string)
    requires PlainTokens(tokens) && NoParens(sep)
    ensures var r := ParseItems(tokens, sep); r.Parsed? ==> Plain(r.items) && PlainTokens(r.rest)
    decreases |tokens|, 1
  {
    if tokens != [] {
      match tokens[0]
      case Query(query) =>
        assert TokenHasNoParens(tokens[0]);
        MoreArePlain(Cond(sep, query), tokens[1..]);
      case Open =>
        var inner := ParseItems(tokens[1..], "");
        ItemsArePlain(tokens[1..], "");
        if inner.Parsed? && inner.rest != [] && inner.rest[0] == Close {
          MoreArePlain(Group(sep, inner.items), inner.rest[1..]);
        }
      case _ =>
    }
  }

  lemma {:induction false} MoreArePlain(item: Item, rest: seq<Token>)
    requires PlainItem(item) && PlainTokens(rest)
    ensures var r := ParseMore(item, rest); r.Parsed? ==> Plain(r.items) && PlainTokens(r.rest)
    decreases |rest|, 2
  {
    if rest != [] && rest[0].Sep? {
      assert TokenHasNoParens(rest[0]);
      ItemsArePlain(rest[1..], rest[0].sep);
    }
  }

  lemma ParsedIsPlain(tokens: seq<Token>)
    requires PlainTokens(tokens)
    ensures Parse(tokens).Some? ==> Plain(Parse(tokens).value)
  {
    ItemsArePlain(tokens, "");
  }

  /** For every nested program, reading the text of the clause gives the program's own tree if and
      only if no parenthesis is left in the queries and separators of that tree. */
  lemma {:induction false} TextRoundTripIff(items: seq<Item>)
    requires Proper(items)
    ensures Parse(Lex(ClauseText(items))) == Some(Meaning(items)) <==> Plain(Meaning(items))
  {
    if Plain(Meaning(items)) {
      ClauseIsReadable(items);
      LexReads(Rendered(Flat(items), true));
      RoundTrip(items);
    } else {
      LexIsPlain(ClauseText(items));
      ParsedIsPlain(Lex(ClauseText(items)));
    }
  }

  /** In particular if the program has none. */
  lemma {:induction false} TextRoundTrip(items: seq<Item>)
    requires Proper(items) && Plain(items)
    ensures Lex(ClauseText(items)) == Rendered(Flat(items), true)
    ensures Parse(Lex(ClauseText(items))) == Some(Meaning(items))
  {
    PrunedIsPlain(items);
    HeadlessIsPlain(Pruned(items));
    TextRoundTripIff(items);
    ClauseIsReadable(items);
    LexReads(Rendered(Flat(items), true));
  }

  lemma {:induction false} TextInParens(tokens: seq<Token>)
    ensures Text([Open] + tokens + [Close]) == "(" + Text(tokens) + ")"
  {
    TextConcat([Open] + tokens, [Close]);
    TextConcat([Open], tokens);
    assert [Open][1..] == [] && [Close][1..] == [];
    assert Text([Open]) == "(" && Text([Close]) == ")";
  }

  lemma {:induction false} OnePruned(item: Item)
    ensures Pruned([item]) == PrunedItem(item)
  {
    assert [item][1..] == [];
    assert Pruned([item]) == PrunedItem(item) + [];
  }

  lemma CondText(sep: string, query: string)
    requires ProperSep(sep) && query != ""
    ensures Meaning([Cond(sep, query)]) == [Cond("", query)]
    ensures ClauseText([Cond(sep, query)]) == "(" + query + ")"
  {
    OnePruned(Cond(sep, query));
    RenderedIsMeaning([Cond(sep, query)]);
    PrintedOne(Cond("", query));
    assert Printed([Cond("", query)]) == [Query(query)] && [Query(query)][1..] == [];
    assert Text([Query(query)]) == "(" + query + ")" + "" == "(" + query + ")";
  }

  lemma {:induction false} GroupText(sep: string, items: seq<Item>)
    requires Proper(items) && ProperSep(sep) && Pruned(items) != []
    ensures Meaning([Group(sep, items)]) == [Group("", Meaning(items))]
    ensures ClauseText([Group(sep, items)]) == "(" + ClauseText(items) + ")"
  {
    var group := Group("", Meaning(items));
    OnePruned(Group(sep, items));
    assert ProperItem(Group(sep, items));
    RenderedIsMeaning([Group(sep, items)]);
    RenderedIsMeaning(items);
    PrintedOne(group);
    assert Printed([group]) == [Open] + Printed(Meaning(items)) + [Close];
    TextInParens(Printed(Meaning(items)));
  }

  /** With parentheses in queries the program cannot be told from the text: any group that holds a
      condition looks like a single condition with the text of the group. */
  lemma {:induction false} GroupLooksLikeQuery(sep: string, items: seq<Item>)
    requires Proper(items) && ProperSep(sep) && Pruned(items) != []
    ensures var group, cond := [Group(sep, items)], [Cond(sep, ClauseText(items))];
      && ClauseText(group) == ClauseText(cond)
      && Proper(group) && Proper(cond) && Meaning(group) != Meaning(cond)
  {
    RenderedIsMeaning(items);
    PrintedBegins(items);
    GroupText(sep, items);
    CondText(sep, ClauseText(items));
  }

  lemma {:induction false} PrintedBegins(items: seq<Item>)
    requires Proper(items) && Pruned(items) != []
    ensures Text(Printed(Meaning(items))) != ""
  {
    PrunedIsTidy(items);
    HeadlessIsTidy(Pruned(items));
    PrintedWithoutSep(Meaning(items), []);
    assert Printed(Meaning(items)) + [] == Printed(Meaning(items));
    TextBegins(Printed(Meaning(items)));
  }

  // ---------------------------------------------------------------------------
  // Balance
  // ---------------------------------------------------------------------------

  /** The depth at the end of the text, unless a parenthesis is closed that is not open. */
  function DepthAfter(text: string, depth: nat): Option<nat>
    decreases |text|
  {
    if text == "" then Some(depth)
    else if text[0] == '(' then DepthAfter(text[1..], depth + 1)
    else if text[0] == ')' then if depth == 0 then None else DepthAfter(text[1..], depth - 1)
    else DepthAfter(text[1..], depth)
  }

  predicate Balanced(text: string) {
    DepthAfter(text, 0) == Some(0)
  }

  lemma {:induction false} DepthConcat(a: string, b: string, depth: nat)
    ensures DepthAfter(a + b, depth)
         == if DepthAfter(a, depth).None? then None else DepthAfter(b, DepthAfter(a, depth).value)
    decreases |a|
  {
    if a == "" {
      assert a + b == b;
    } else {
      assert (a + b)[1..] == a[1..] + b;
      if a[0] == '(' {
        DepthConcat(a[1..], b, depth + 1);
      } else if a[0] == ')' {
        if depth > 0 { DepthConcat(a[1..], b, depth - 1); }
      } else {
        DepthConcat(a[1..], b, depth);
      }
    }
  }

  lemma {:induction false} DeeperIn(text: string, depth: nat, more: nat)
    requires DepthAfter(text, depth).Some?
    ensures DepthAfter(text, depth + more) == Some(DepthAfter(text, depth).value + more)
    decreases |text|
  {
    if text != "" {
      DeeperIn(text[1..], if text[0] == '(' then depth + 1 else if text[0] == ')' then depth - 1 else depth, more);
    }
  }

  lemma BalancedConcat(a: string, b: string)
    requires Balanced(a) && Balanced(b)
    ensures Balanced(a + b)
  {
    DepthConcat(a, b, 0);
  }

  lemma BalancedInParens(text: string)
    requires Balanced(text)
    ensures Balanced("(" + text + ")")
  {
    var tail := text + ")";
    assert "(" + text + ")" == "(" + tail && ("(" + tail)[1..] == tail;
    DeeperIn(text, 0, 1);
    DepthConcat(text, ")", 1);
    assert ")"[1..] == "";
  }

  predicate BalancedItem(item: Item) {
    Balanced(item.sep) &&
    match item
    case Cond(_, query) => Balanced(query)
    case Group(_, items) => forall i :: 0 <= i < |items| ==> BalancedItem(items[i])
  }

  predicate BalancedItems(items: seq<Item>) {
    forall i :: 0 <= i < |items| ==> BalancedItem(items[i])
  }

  lemma {:induction false} PrunedIsBalanced(items: seq<Item>)
    requires BalancedItems(items)
    ensures BalancedItems(Pruned(items)) && BalancedItems(HeadlessItems(Pruned(items)))
    decreases items
  {
    if items != [] {
      PrunedIsBalanced(items[1..]);
      assert BalancedItem(items[0]);
      match items[0]
      case Cond(_, _) =>
      case Group(_, nested) => PrunedIsBalanced(nested);
      assert BalancedItems(PrunedItem(items[0]));
      HeadlessIsBalanced(Pruned(items));
    }
  }

  lemma HeadlessIsBalanced(items: seq<Item>)
    requires BalancedItems(items)
    ensures BalancedItems(HeadlessItems(items))
  {
    if items != [] { assert BalancedItem(items[0]); }
  }

  lemma SepBalanced(sep: string)
    requires Balanced(sep) && sep != "(" && sep != ")"
    ensures Balanced(Text(SepToken(sep)))
  {
    assert SepToken(sep) != [] ==> SepToken(sep)[1..] == [] && Text(SepToken(sep)) == sep + "" == sep;
  }

  lemma {:induction false} BodyIsBalanced(item: Item)
    requires BalancedItem(item) && TidyItem(item)
    ensures Balanced(Text(Body(item)))
    decreases item, 1
  {
    match item
    case Cond(_, query) =>
      assert Body(item)[1..] == [] && Text(Body(item)) == "(" + query + ")" + "" == "(" + query + ")";
      BalancedInParens(query);
    case Group(_, items) =>
      PrintedIsBalanced(items);
      TextInParens(Printed(items));
      BalancedInParens(Text(Printed(items)));
  }

  lemma {:induction false} PrintedIsBalanced(items: seq<Item>)
    requires BalancedItems(items)
    requires forall i :: 0 <= i < |items| ==> (items[i].sep == "" || ProperSep(items[i].sep)) && TidyItem(items[i])
    ensures Balanced(Text(Printed(items)))
    decreases items, 0
  {
    if items != [] {
      assert BalancedItem(items[0]);
      BodyIsBalanced(items[0]);
      SepBalanced(items[0].sep);
      TextConcat(SepToken(items[0].sep), Body(items[0]));
      BalancedConcat(Text(SepToken(items[0].sep)), Text(Body(items[0])));
      PrintedIsBalanced(items[1..]);
      TextConcat(PrintedItem(items[0]), Printed(items[1..]));
      BalancedConcat(Text(PrintedItem(items[0])), Text(Printed(items[1..])));
    }
  }

  /** If the parentheses of each query and each separator balance, those of the clause do. */
  lemma {:induction false} ClauseIsBalanced(items: seq<Item>)
    requires Proper(items) && BalancedItems(items)
    ensures Balanced(ClauseText(items))
  {
    RenderedIsMeaning(items);
    PrunedIsTidy(items);
    PrunedIsBalanced(items);
    PrintedIsBalanced(Meaning(items));
  }

  // ---------------------------------------------------------------------------
  // Programs with balanced queries
  // ---------------------------------------------------------------------------

  /** The length of the text up to the parenthesis that closes it, which is one more than are opened
      in it. */
  function Inside(text: string, depth: nat): (n: nat)
    ensures n <= |text|
    decreases |text|
  {
    if text == "" then 0
    else if text[0] == '(' then 1 + Inside(text[1..], depth + 1)
    else if text[0] == ')' then if depth == 0 then 0 else 1 + Inside(text[1..], depth - 1)
    else 1 + Inside(text[1..], depth)
  }

  lemma {:induction false} InsideEnds(query: string, rest: string, depth: nat)
    requires DepthAfter(query, depth) == Some(0)
    ensures Inside(query + (")" + rest), depth) == |query|
    decreases |query|
  {
    if query == "" {
      assert query + (")" + rest) == ")" + rest;
    } else {
      assert (query + (")" + rest))[1..] == query[1..] + (")" + rest);
      InsideEnds(query[1..], rest, if query[0] == '(' then depth + 1 else if query[0] == ')' then depth - 1 else depth);
    }
  }

  /** Splits a text where no parenthesis is open: what stands in parentheses, with what precedes it. */
  function TopItems(text: string): seq<Item>
    decreases |text|, 0
  {
    var m := Run(text);
    if m == |text| || text[m] == ')' then [] else TopItemsFrom(text[..m], text[m + 1..])
  }

  function TopItemsFrom(sep: string, inner: string): seq<Item>
    decreases |inner|, 1
  {
    var n := Inside(inner, 0);
    [Cond(sep, inner[..n])] + TopItems(if n < |inner| then inner[n + 1..] else "")
  }

  lemma {:induction false} TopItemsFromStep(sep: string, query: string, rest: string)
    requires Balanced(query)
    ensures TopItemsFrom(sep, query + (")" + rest)) == [Cond(sep, query)] + TopItems(rest)
  {
    var inner, n := query + (")" + rest), |query|;
    assert Inside(inner, 0) == n by { InsideEnds(query, rest, 0); }
    assert inner[..n] == query && inner[n + 1..] == rest;
  }

  lemma {:induction false} TopItemsStep(sep: string, query: string, rest: string)
    requires NoParens(sep) && Balanced(query)
    ensures TopItems(sep + ("(" + query + ")") + rest) == [Cond(sep, query)] + TopItems(rest)
  {
    var inner := query + (")" + rest);
    var text, m := sep + ("(" + query + ")") + rest, |sep|;
    assert text == sep + ("(" + inner) && text[m + 1..] == inner;
    assert Run(text) == m && text[..m] == sep && text[m] == '(' by { RunEnds(sep, "(" + inner); }
    TopItemsFromStep(sep, query, rest);
  }

  /** What stands in the parentheses of an item. */
  function BodyText(item: Item): string {
    match item
    case Cond(_, query) => query
    case Group(_, items) => Text(Printed(items))
  }

  /** The list with each group replaced by a condition that holds its text. */
  function Outline(items: seq<Item>): seq<Item> {
    if items == [] then [] else [Cond(items[0].sep, BodyText(items[0]))] + Outline(items[1..])
  }

  lemma {:induction false} ItemText(item: Item)
    requires item.sep == "" || ProperSep(item.sep)
    ensures Text(PrintedItem(item)) == item.sep + ("(" + BodyText(item) + ")")
  {
    TextConcat(SepToken(item.sep), Body(item));
    assert SepToken(item.sep) != [] ==> SepToken(item.sep)[1..] == [];
    assert item.sep + "" == item.sep;
    match item
    case Cond(_, query) =>
      assert Body(item)[1..] == [];
      assert Text(Body(item)) == "(" + query + ")" + "" == "(" + query + ")";
    case Group(_, items) => TextInParens(Printed(items));
  }

  predicate SplitsAt(item: Item) {
    (item.sep == "" || ProperSep(item.sep)) && NoParens(item.sep) && Balanced(BodyText(item))
  }

  lemma {:induction false} PrintedSplits(items: seq<Item>)
    requires forall i :: 0 <= i < |items| ==> SplitsAt(items[i])
    ensures TopItems(Text(Printed(items))) == Outline(items)
  {
    if items != [] {
      assert SplitsAt(items[0]);
      ItemText(items[0]);
      TextConcat(PrintedItem(items[0]), Printed(items[1..]));
      TopItemsStep(items[0].sep, BodyText(items[0]), Text(Printed(items[1..])));
      PrintedSplits(items[1..]);
    }
  }

  /** The text depends on the outline only. */
  lemma {:induction false} OutlineText(items: seq<Item>, others: seq<Item>)
    requires forall i :: 0 <= i < |items| ==> SplitsAt(items[i])
    requires forall i :: 0 <= i < |others| ==> SplitsAt(others[i])
    requires Outline(items) == Outline(others)
    ensures Text(Printed(items)) == Text(Printed(others))
  {
    if items != [] && others != [] {
      assert SplitsAt(items[0]) && SplitsAt(others[0]);
      assert Outline(items)[0] == Outline(others)[0] && Outline(items)[1..] == Outline(others)[1..];
      OutlineText(items[1..], others[1..]);
      ItemText(items[0]);
      ItemText(others[0]);
      TextConcat(PrintedItem(items[0]), Printed(items[1..]));
      TextConcat(PrintedItem(others[0]), Printed(others[1..]));
    }
  }

  /** No separator of the list itself contains a parenthesis; those inside of groups may, if they
      balance. */
  predicate PlainSeps(items: seq<Item>) {
    forall i :: 0 <= i < |items| ==> NoParens(items[i].sep)
  }

  lemma {:induction false} PrunedSeps(items: seq<Item>)
    requires PlainSeps(items)
    ensures PlainSeps(Pruned(items)) && PlainSeps(Meaning(items))
  {
    if items != [] {
      PrunedSeps(items[1..]);
      assert PlainSeps(PrunedItem(items[0]));
    }
  }

  lemma {:induction false} TextIsBalanced(item: Item)
    requires BalancedItem(item) && TidyItem(item)
    ensures Balanced(BodyText(item))
  {
    match item
    case Cond(_, _) =>
    case Group(_, items) => PrintedIsBalanced(items);
  }

  lemma {:induction false} MeaningSplits(items: seq<Item>)
    requires Proper(items) && BalancedItems(items) && PlainSeps(items)
    ensures forall i :: 0 <= i < |Meaning(items)| ==> SplitsAt(Meaning(items)[i])
  {
    var meaning := Meaning(items);
    PrunedIsTidy(items);
    PrunedIsBalanced(items);
    PrunedSeps(items);
    forall i | 0 <= i < |meaning| ensures SplitsAt(meaning[i]) {
      TextIsBalanced(meaning[i]);
    }
  }

  /** If the parentheses of each query balance, splitting the text of the clause where none is open
      gives exactly the items of the program, each group as its text. */
  lemma {:induction false} ClauseSplits(items: seq<Item>)
    requires Proper(items) && BalancedItems(items) && PlainSeps(items)
    ensures TopItems(ClauseText(items)) == Outline(Meaning(items))
  {
    MeaningSplits(items);
    RenderedIsMeaning(items);
    PrintedSplits(Meaning(items));
  }

  /** So two such programs have the same text if and only if they agree but for groups in the place
      of conditions that hold the text of the group. */
  lemma {:induction false} SameTextIff(items: seq<Item>, others: seq<Item>)
    requires Proper(items) && BalancedItems(items) && PlainSeps(items)
    requires Proper(others) && BalancedItems(others) && PlainSeps(others)
    ensures ClauseText(items) == ClauseText(others) <==> Outline(Meaning(items)) == Outline(Meaning(others))
  {
    ClauseSplits(items);
    ClauseSplits(others);
    RenderedIsMeaning(items);
    RenderedIsMeaning(others);
    if Outline(Meaning(items)) == Outline(Meaning(others)) {
      MeaningSplits(items);
      MeaningSplits(others);
      OutlineText(Meaning(items), Meaning(others));
    }
  }

  /** The text that a group leaves in the outline is the text of its own clause. */
  lemma {:induction false} GroupOutline(sep: string, items: seq<Item>)
    requires Proper(items) && ProperSep(sep) && Pruned(items) != []
    ensures Outline(Meaning([Group(sep, items)])) == [Cond("", ClauseText(items))]
  {
    GroupText(sep, items);
    RenderedIsMeaning(items);
    assert [Group("", Meaning(items))][1..] == [];
  }
}
