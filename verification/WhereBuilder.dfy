/** The WHERE clause of the query builder: nested conditions are kept as a flat list of
    separators and queries, and rendered from it. */
module WhereBuilder {
  import opened Basics

  /** What the caller writes: a condition, or a group of them. */
  datatype Item = Cond(sep: string, query: string) | Group(sep: string, items: seq<Item>)

  /** What the builder keeps. */
  datatype Filter = Filter(sep: string, query: string)

  /** A query in parentheses, a parenthesis, or a separator. */
  datatype Token = Query(query: string) | Open | Close | Sep(sep: string)

  // ---------------------------------------------------------------------------
  // The flat list
  // ---------------------------------------------------------------------------

  /** Without the separator of the first filter. */
  function Headless(filters: seq<Filter>): seq<Filter> {
    if filters == [] then [] else filters[0 := filters[0].(sep := "")]
  }

  /** What a group adds; an empty group adds nothing. */
  function Grouped(sep: string, filters: seq<Filter>): seq<Filter> {
    if filters == [] then []
    else [Filter(sep, ""), Filter("(", "")] + Headless(filters) + [Filter(")", "")]
  }

  function FlatItem(item: Item): seq<Filter> {
    match item
    case Cond(sep, query) => [Filter(sep, query)]
    case Group(sep, items) => Grouped(sep, Flat(items))
  }

  function Flat(items: seq<Item>): seq<Filter> {
    if items == [] then [] else FlatItem(items[0]) + Flat(items[1..])
  }

  /** The filters of a query while it is built. */
  class SelectQuery {
    var filters: seq<Filter>

    constructor ()
      ensures filters == []
    {
      filters := [];
    }

    method AddFilter(filter: Filter)
      modifies this
      ensures filters == old(filters) + [filter]
    {
      filters := filters + [filter];
    }

    method AddGroup(sep: string, group: seq<Filter>)
      modifies this
      ensures filters == old(filters) + Grouped(sep, group)
    {
      if |group| == 0 { return; }
      AddFilter(Filter(sep, ""));
      AddFilter(Filter("(", ""));
      filters := filters + group[0 := group[0].(sep := "")];
      AddFilter(Filter(")", ""));
    }

    method Where(query: string)
      modifies this
      ensures filters == old(filters) + FlatItem(Cond(" AND ", query))
    {
      AddFilter(Filter(" AND ", query));
    }

    method WhereOr(query: string)
      modifies this
      ensures filters == old(filters) + FlatItem(Cond(" OR ", query))
    {
      AddFilter(Filter(" OR ", query));
    }

    /** The calls that the function of a group makes are given as items. */
    method WhereGroup(sep: string, items: seq<Item>)
      modifies this
      ensures filters == old(filters) + FlatItem(Group(sep, items))
      decreases items, 1
    {
      var saved := filters;
      filters := [];
      Build(items);
      var group := filters;
      assert group == Flat(items);
      filters := saved;
      AddGroup(sep, group);
    }

    method Build(items: seq<Item>)
      modifies this
      ensures filters == old(filters) + Flat(items)
      decreases items, 0
    {
      for i := 0 to |items|
        invariant filters + Flat(items[i..]) == old(filters) + Flat(items)
      {
        assert items[i..][1..] == items[i + 1..];
        match items[i]
        case Cond(sep, query) => AddFilter(Filter(sep, query));
        case Group(sep, nested) => WhereGroup(sep, nested);
      }
    }
  }

  // ---------------------------------------------------------------------------
  // Rendering
  // ---------------------------------------------------------------------------

  function SepToken(sep: string): seq<Token> {
    if sep == "" then [] else if sep == "(" then [Open] else if sep == ")" then [Close] else [Sep(sep)]
  }

  function QueryToken(query: string): seq<Token> {
    if query == "" then [] else [Query(query)]
  }

  function FilterTokens(filter: Filter, first: bool): seq<Token> {
    (if !first || filter.sep == "(" then SepToken(filter.sep) else []) + QueryToken(filter.query)
  }

  /** The filters rendered as tokens; the separator of the very first one is left out, unless it
      is a parenthesis. */
  function Rendered(filters: seq<Filter>, first: bool): seq<Token> {
    if filters == [] then []
    else
      FilterTokens(filters[0], first) + Rendered(filters[1..], false)
  }

  function TokenText(token: Token): string {
    match token
    case Query(query) => "(" + query + ")"
    case Open => "("
    case Close => ")"
    case Sep(sep) => sep
  }

  function Text(tokens: seq<Token>): string {
    if tokens == [] then "" else TokenText(tokens[0]) + Text(tokens[1..])
  }

  lemma {:induction false} TextConcat(a: seq<Token>, b: seq<Token>)
    ensures Text(a + b) == Text(a) + Text(b)
  {
    if a == [] {
      assert a + b == b;
    } else {
      assert (a + b)[1..] == a[1..] + b;
      TextConcat(a[1..], b);
    }
  }

  /** What one filter appends to the text. */
  function Extended(text: string, filter: Filter, first: bool): string {
    var begun := if !first || filter.sep == "(" then text + filter.sep else text;
    if filter.query == "" then begun else begun + "(" + filter.query + ")"
  }

  function ExtendedAll(text: string, filters: seq<Filter>, first: bool): string
    decreases filters
  {
    if filters == [] then text else ExtendedAll(Extended(text, filters[0], first), filters[1..], false)
  }

  /** The text of the clause, appended to what is there. */
  method AppendWhere(b: string, filters: seq<Filter>) returns (r: string)
    ensures r == b + Text(Rendered(filters, true))
  {
    r := b;
    for i := 0 to |filters|
      invariant ExtendedAll(r, filters[i..], i == 0) == ExtendedAll(b, filters, true)
    {
      assert filters[i..][1..] == filters[i + 1..];
      if i > 0 || filters[i].sep == "(" {
        r := r + filters[i].sep;
      }
      if filters[i].query == "" { continue; }
      r := r + "(";
      r := r + filters[i].query;
      r := r + ")";
    }
    ExtendedIsRendered(b, filters, true);
  }

  lemma QueryText(text: string, query: string)
    ensures text + Text(QueryToken(query)) == if query == "" then text else text + "(" + query + ")"
  {
    if query == "" {
      assert text + "" == text;
    } else {
      assert QueryToken(query)[1..] == [];
      assert Text(QueryToken(query)) == "(" + query + ")" + "" == "(" + query + ")";
      Assoc(text, "(" + query, ")");
      Assoc(text, "(", query);
    }
  }

  lemma SepText(sep: string)
    ensures Text(SepToken(sep)) == sep
  {
    if sep != "" {
      assert SepToken(sep)[1..] == [];
      assert TokenText(SepToken(sep)[0]) + "" == sep;
    }
  }

  lemma ExtendedByTokens(text: string, filter: Filter, first: bool)
    ensures Extended(text, filter, first) == text + Text(FilterTokens(filter, first))
  {
    var sep := if !first || filter.sep == "(" then SepToken(filter.sep) else [];
    TextConcat(sep, QueryToken(filter.query));
    SepText(filter.sep);
    assert text + "" == text;
    Assoc(text, Text(sep), Text(QueryToken(filter.query)));
    QueryText(text + Text(sep), filter.query);
  }

  lemma {:induction false} ExtendedStep(before: string, filters: seq<Filter>, first: bool)
    requires filters != []
    ensures before + Text(Rendered(filters, first)) == Extended(before, filters[0], first) + Text(Rendered(filters[1..], false))
  {
    var tokens, rest := FilterTokens(filters[0], first), Rendered(filters[1..], false);
    TextConcat(tokens, rest);
    ExtendedByTokens(before, filters[0], first);
    Assoc(before, Text(tokens), Text(rest));
  }

  lemma {:induction false} ExtendedIsRendered(text: string, filters: seq<Filter>, first: bool)
    ensures ExtendedAll(text, filters, first) == text + Text(Rendered(filters, first))
    decreases filters
  {
    if filters != [] {
      ExtendedIsRendered(Extended(text, filters[0], first), filters[1..], false);
      ExtendedStep(text, filters, first);
    }
  }

  // ---------------------------------------------------------------------------
  // What the clause means
  // ---------------------------------------------------------------------------

  function WithSep(item: Item, sep: string): Item {
    match item
    case Cond(_, query) => Cond(sep, query)
    case Group(_, items) => Group(sep, items)
  }

  /** The list without its first separator. */
  function HeadlessItems(items: seq<Item>): seq<Item> {
    if items == [] then [] else items[0 := WithSep(items[0], "")]
  }

  /** The items without those groups that hold no condition at any depth, and without the first
      separator inside every group. */
  function Pruned(items: seq<Item>): seq<Item> {
    if items == [] then [] else PrunedItem(items[0]) + Pruned(items[1..])
  }

  function PrunedItem(item: Item): seq<Item> {
    match item
    case Cond(_, _) => [item]
    case Group(sep, items) => if Pruned(items) == [] then [] else [Group(sep, HeadlessItems(Pruned(items)))]
  }

  /** What the caller means: the program, its first separator left out as well. */
  function Meaning(items: seq<Item>): seq<Item> {
    HeadlessItems(Pruned(items))
  }

  /** The tokens of a tree. */
  function Printed(items: seq<Item>): seq<Token>
    decreases items, 0
  {
    if items == [] then [] else PrintedItem(items[0]) + Printed(items[1..])
  }

  function PrintedItem(item: Item): seq<Token>
    decreases item, 1
  {
    SepToken(item.sep) + Body(item)
  }

  function Body(item: Item): seq<Token>
    decreases item, 0
  {
    match item
    case Cond(_, query) => [Query(query)]
    case Group(_, items) => [Open] + Printed(items) + [Close]
  }

  predicate ProperSep(sep: string) {
    sep != "" && sep != "(" && sep != ")"
  }

  /** No query is empty, and no separator is empty or a parenthesis. */
  predicate Proper(items: seq<Item>) {
    forall i :: 0 <= i < |items| ==> ProperItem(items[i])
  }

  predicate ProperItem(item: Item) {
    ProperSep(item.sep) &&
    match item
    case Cond(_, query) => query != ""
    case Group(_, items) => Proper(items)
  }

  /** A tree without empty groups, in which exactly the first item of each group has no
      separator. */
  predicate Tidy(items: seq<Item>) {
    && items != [] && items[0].sep == ""
    && (forall i :: 0 < i < |items| ==> ProperSep(items[i].sep))
    && (forall i :: 0 <= i < |items| ==> TidyItem(items[i]))
  }

  predicate TidyItem(item: Item) {
    match item
    case Cond(_, query) => query != ""
    case Group(_, items) => Tidy(items)
  }

  // ---------------------------------------------------------------------------
  // Rendering prints the meaning
  // ---------------------------------------------------------------------------

  lemma {:induction false} RenderedConcat(a: seq<Filter>, b: seq<Filter>, first: bool)
    ensures Rendered(a + b, first) == Rendered(a, first) + Rendered(b, first && a == [])
    decreases a
  {
    if a == [] {
      assert a + b == b;
    } else {
      assert (a + b)[1..] == a[1..] + b;
      RenderedConcat(a[1..], b, false);
      Assoc(FilterTokens(a[0], first), Rendered(a[1..], false), Rendered(b, false));
    }
  }

  /** The list as it is rendered after something else. */
  function Later(filters: seq<Filter>): seq<Token> {
    Rendered(filters, false)
  }

  /** What is flattened is empty exactly when what is pruned is, and begins with the separator of
      the first item that stays. */
  lemma {:induction false} FlatHead(items: seq<Item>)
    ensures Flat(items) == [] <==> Pruned(items) == []
    ensures Pruned(items) != [] ==> Flat(items)[0].sep == Pruned(items)[0].sep
    decreases items
  {
    if items != [] {
      FlatHead(items[1..]);
      match items[0]
      case Cond(_, _) =>
      case Group(_, nested) => FlatHead(nested);
    }
  }

  lemma {:induction false} PrunedIsTidy(items: seq<Item>)
    requires Proper(items)
    ensures forall i :: 0 <= i < |Pruned(items)| ==> ProperSep(Pruned(items)[i].sep) && TidyItem(Pruned(items)[i])
    decreases items
  {
    if items != [] {
      PrunedIsTidy(items[1..]);
      assert ProperItem(items[0]);
      match items[0]
      case Cond(_, _) =>
      case Group(_, nested) =>
        PrunedIsTidy(nested);
        if Pruned(nested) != [] { HeadlessIsTidy(Pruned(nested)); }
    }
  }

  lemma HeadlessIsTidy(items: seq<Item>)
    requires items != [] && forall i :: 0 <= i < |items| ==> ProperSep(items[i].sep) && TidyItem(items[i])
    ensures Tidy(HeadlessItems(items))
  {
  }

  lemma LaterHead(filters: seq<Filter>)
    requires filters != []
    ensures Later(filters) == SepToken(filters[0].sep) + Later(Headless(filters))
  {
    var headless := Headless(filters);
    assert headless[1..] == filters[1..];
    Assoc(SepToken(filters[0].sep), QueryToken(filters[0].query), Rendered(filters[1..], false));
    assert FilterTokens(headless[0], false) == QueryToken(filters[0].query);
  }

  /** Without its first separator a list is rendered alike at the beginning and later. */
  lemma {:induction false} HeadlessRendered(filters: seq<Filter>)
    requires filters != [] && filters[0].sep != "("
    ensures Rendered(Headless(filters), false) == Rendered(filters, true)
  {
    assert Headless(filters)[1..] == filters[1..];
  }

  lemma {:induction false} PrintedHead(items: seq<Item>)
    requires items != []
    ensures Printed(items) == SepToken(items[0].sep) + Printed(HeadlessItems(items))
  {
    var headless := HeadlessItems(items);
    assert headless[1..] == items[1..];
    assert Body(headless[0]) == Body(items[0]);
    assert PrintedItem(headless[0]) == Body(items[0]);
    Assoc(SepToken(items[0].sep), Body(items[0]), Printed(items[1..]));
  }

  lemma CancelPrefix<T>(a: seq<T>, b: seq<T>, c: seq<T>)
    requires a + b == a + c
    ensures b == c
  {
    assert b == (a + b)[|a|..];
    assert c == (a + c)[|a|..];
  }

  lemma LaterGroup(sep: string, filters: seq<Filter>)
    requires filters != []
    ensures Later(Grouped(sep, filters)) == SepToken(sep) + ([Open] + Later(Headless(filters)) + [Close])
  {
    var begin, end := [Filter(sep, ""), Filter("(", "")], [Filter(")", "")];
    RenderedConcat(begin + Headless(filters), end, false);
    RenderedConcat(begin, Headless(filters), false);
    assert begin[1..] == [Filter("(", "")] && begin[1..][1..] == [] && end[1..] == [];
    assert Later(begin) == SepToken(sep) + [Open];
    assert Later(end) == [Close];
    Assoc(SepToken(sep) + [Open], Later(Headless(filters)), [Close]);
    Assoc(SepToken(sep), [Open], Later(Headless(filters)) + [Close]);
    Assoc([Open], Later(Headless(filters)), [Close]);
  }

  /** After something else, the filters are rendered as the pruned items are printed. */
  lemma {:induction false} LaterIsPrinted(items: seq<Item>)
    requires Proper(items)
    ensures Later(Flat(items)) == Printed(Pruned(items))
    decreases items
  {
    if items != [] {
      LaterIsPrinted(items[1..]);
      RenderedConcat(FlatItem(items[0]), Flat(items[1..]), false);
      PrintedConcat(PrunedItem(items[0]), Pruned(items[1..]));
      assert ProperItem(items[0]);
      LaterItemIsPrinted(items[0]);
    }
  }

  lemma LaterOne(filter: Filter)
    ensures Later([filter]) == FilterTokens(filter, false)
  {
    var list := [filter];
    assert Rendered(list[1..], false) == [];
    assert Rendered(list, false) == FilterTokens(filter, false) + [];
    assert FilterTokens(filter, false) + [] == FilterTokens(filter, false);
  }

  lemma {:induction false} PrintedOne(item: Item)
    ensures Printed([item]) == PrintedItem(item)
  {
    assert [item][1..] == [];
    assert PrintedItem(item) + [] == PrintedItem(item);
  }

  lemma {:induction false} LaterItemIsPrinted(item: Item)
    requires ProperItem(item)
    ensures Later(FlatItem(item)) == Printed(PrunedItem(item))
    decreases item
  {
    match item
    case Cond(sep, query) =>
      LaterOne(Filter(sep, query));
      assert QueryToken(query) == Body(item);
      PrintedOne(item);
    case Group(sep, nested) =>
      FlatHead(nested);
      if Flat(nested) != [] {
        LaterIsPrinted(nested);
        LaterHead(Flat(nested));
        PrintedHead(Pruned(nested));
        CancelPrefix(SepToken(Pruned(nested)[0].sep), Later(Headless(Flat(nested))), Printed(HeadlessItems(Pruned(nested))));
        LaterGroup(sep, Flat(nested));
        PrintedOne(PrunedItem(item)[0]);
      }
  }

  lemma {:induction false} PrintedConcat(a: seq<Item>, b: seq<Item>)
    ensures Printed(a + b) == Printed(a) + Printed(b)
    decreases a
  {
    if a == [] {
      assert a + b == b;
    } else {
      assert (a + b)[1..] == a[1..] + b;
      PrintedConcat(a[1..], b);
      Assoc(PrintedItem(a[0]), Printed(a[1..]), Printed(b));
    }
  }

  /** The clause prints what the caller means. */
  lemma {:induction false} RenderedIsMeaning(items: seq<Item>)
    requires Proper(items)
    ensures Rendered(Flat(items), true) == Printed(Meaning(items))
  {
    FlatHead(items);
    if Flat(items) != [] {
      PrunedIsTidy(items);
      LaterIsPrinted(items);
      LaterHead(Flat(items));
      PrintedHead(Pruned(items));
      CancelPrefix(SepToken(Pruned(items)[0].sep), Later(Headless(Flat(items))), Printed(Meaning(items)));
      HeadlessRendered(Flat(items));
    }
  }

  // ---------------------------------------------------------------------------
  // Reading the clause
  // ---------------------------------------------------------------------------

  datatype Reading = Parsed(items: seq<Item>, rest: seq<Token>) | Failed

  /** Reads items, the first of which has this separator, as far as separators follow. */
  function ParseItems(tokens: seq<Token>, sep: string): (r: Reading)
    ensures r.Parsed? ==> |r.rest| < |tokens|
    decreases |tokens|, 1
  {
    if tokens == [] then Failed
    else
      match tokens[0]
      case Query(query) => ParseMore(Cond(sep, query), tokens[1..])
      case Open =>
        var inner := ParseItems(tokens[1..], "");
        if inner.Parsed? && inner.rest != [] && inner.rest[0] == Close then
          ParseMore(Group(sep, inner.items), inner.rest[1..])
        else Failed
      case _ => Failed
  }

  function ParseMore(item: Item, rest: seq<Token>): (r: Reading)
    ensures r.Parsed? ==> |r.rest| <= |rest|
    decreases |rest|, 2
  {
    if rest != [] && rest[0].Sep? then
      var more := ParseItems(rest[1..], rest[0].sep);
      if more.Parsed? then Parsed([item] + more.items, more.rest) else Failed
    else Parsed([item], rest)
  }

  /** Reads a whole clause. */
  function Parse(tokens: seq<Token>): Option<seq<Item>> {
    if tokens == [] then Some([])
    else
      var r := ParseItems(tokens, "");
      if r.Parsed? && r.rest == [] then Some(r.items) else None
  }

  predicate NoSepAhead(rest: seq<Token>) {
    rest != [] ==> !rest[0].Sep?
  }

  /** What is printed of a list, without its first separator, is read back. */
  lemma {:induction false} ParsesPrinted(items: seq<Item>, rest: seq<Token>)
    requires items != [] && NoSepAhead(rest)
    requires forall i :: 0 < i < |items| ==> ProperSep(items[i].sep)
    requires forall i :: 0 <= i < |items| ==> TidyItem(items[i])
    ensures ParseItems(Body(items[0]) + (Printed(items[1..]) + rest), items[0].sep) == Parsed(items, rest)
    decreases items
  {
    var after := Printed(items[1..]) + rest;
    ParsesMore(items, rest);
    match items[0]
    case Cond(sep, query) =>
      assert ([Query(query)] + after)[1..] == after;
    case Group(sep, nested) =>
      assert TidyItem(items[0]);
      ParsesPrinted(nested, [Close] + after);
      PrintedWithoutSep(nested, [Close] + after);
      ParsesGroup(Printed(nested), after, sep, nested);
  }

  lemma {:induction false} PrintedWithoutSep(items: seq<Item>, rest: seq<Token>)
    requires items != [] && items[0].sep == ""
    ensures Printed(items) + rest == Body(items[0]) + (Printed(items[1..]) + rest)
  {
    assert PrintedItem(items[0]) == Body(items[0]);
    Assoc(Body(items[0]), Printed(items[1..]), rest);
  }

  lemma {:induction false} ParsesGroup(inner: seq<Token>, after: seq<Token>, sep: string, items: seq<Item>)
    requires ParseItems(inner + ([Close] + after), "") == Parsed(items, [Close] + after)
    ensures ParseItems([Open] + inner + [Close] + after, sep) == ParseMore(Group(sep, items), after)
  {
    var tokens := [Open] + inner + [Close] + after;
    assert tokens[0] == Open && tokens[1..] == inner + ([Close] + after);
    assert ([Close] + after)[1..] == after;
  }

  lemma {:induction false} PrintedWithSep(items: seq<Item>, rest: seq<Token>)
    requires items != [] && ProperSep(items[0].sep)
    ensures Printed(items) + rest == [Sep(items[0].sep)] + (Body(items[0]) + (Printed(items[1..]) + rest))
  {
    Assoc(PrintedItem(items[0]), Printed(items[1..]), rest);
    Assoc([Sep(items[0].sep)], Body(items[0]), Printed(items[1..]) + rest);
  }

  lemma {:induction false} ParsesMore(items: seq<Item>, rest: seq<Token>)
    requires items != [] && NoSepAhead(rest)
    requires forall i :: 0 < i < |items| ==> ProperSep(items[i].sep)
    requires forall i :: 0 <= i < |items| ==> TidyItem(items[i])
    ensures ParseMore(items[0], Printed(items[1..]) + rest) == Parsed(items, rest)
    decreases items, 0
  {
    var others := items[1..];
    if others == [] {
      assert Printed(others) + rest == rest;
      assert items == [items[0]];
    } else {
      ParsesPrinted(others, rest);
      var next := Body(others[0]) + (Printed(others[1..]) + rest);
      assert Printed(others) + rest == [Sep(others[0].sep)] + next by { PrintedWithSep(others, rest); }
      assert ([Sep(others[0].sep)] + next)[1..] == next;
      assert items == [items[0]] + others;
    }
  }

  /** Reading the clause gives back what the caller means, for every nested program: no group
      is lost, added or regrouped, and each separator stays where it was, except that groups
      without conditions vanish and the first separator of each list is dropped. */
  lemma {:induction false} RoundTrip(items: seq<Item>)
    requires Proper(items)
    ensures Parse(Rendered(Flat(items), true)) == Some(Meaning(items))
  {
    RenderedIsMeaning(items);
    var meaning := Meaning(items);
    if meaning != [] {
      PrunedIsTidy(items);
      HeadlessIsTidy(Pruned(items));
      ParsesPrinted(meaning, []);
      PrintedWithoutSep(meaning, []);
      assert Printed(meaning) + [] == Printed(meaning);
    }
  }
}
