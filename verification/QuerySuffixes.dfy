/** How the span-query parser reads an operator chain. It calls `binaryExprPrecedence` as it
    returns from every suffix of the chain, so that each call sees a chain of two operators at
    most: a new one, and the one that the rewriting of the rest has left. */
module QuerySuffixes {
  import opened QueryPrecedence

  /** The right-nested chain `e`, with every suffix rewritten as the parser returns from it. */
  function ParseSuffixes(e: Expr): (r: Expr)
    ensures r.BinaryExpr? <==> e.BinaryExpr?
  {
    if e.BinaryExpr? then Rewrite(e.(rhs := ParseSuffixes(e.rhs)), 0) else e
  }

  // ---------------------------------------------------------------------------
  // One call
  // ---------------------------------------------------------------------------

  /** A chain of two operators. */
  predicate IsPair(e: Expr) {
    && e.BinaryExpr? && !e.lhs.BinaryExpr?
    && e.rhs.BinaryExpr? && !e.rhs.lhs.BinaryExpr? && !e.rhs.rhs.BinaryExpr?
    && Rank(e.op) <= 5 && Rank(e.rhs.op) <= 5
  }

  /** What a call makes of it: the second operator is put into parentheses if it binds tighter and
      its right operand is a plain term; otherwise the first one is. */
  function PairGrouped(e: Expr): (r: Expr)
    requires IsPair(e)
    ensures r.BinaryExpr? && !r.lhs.BinaryExpr? && !r.rhs.BinaryExpr?
  {
    if Rank(e.rhs.op) < Rank(e.op) && e.rhs.rhs.Term? then e.(rhs := ParenExpr(e.rhs)) else Rotate(e)
  }

  function RankOfRow(row: nat): nat {
    if row <= 2 then row else row - 1
  }

  lemma RowHasRank(row: nat)
    requires row < |OP_PRECEDENCE|
    ensures IsRow(OP_PRECEDENCE[row], RankOfRow(row))
  {
    if row <= 2 {
      RowsAreRanks(row);
    } else {
      RowsAreRanks(row - 1);
    }
  }

  /** A row that applies to neither operator, or only to the second one before parentheses. */
  lemma PassIdle(e: Expr, row: nat)
    requires IsPair(e) && row < |OP_PRECEDENCE| && RankOfRow(row) != Rank(e.op)
    requires RankOfRow(row) == Rank(e.rhs.op) ==> e.rhs.rhs.ParenExpr?
    ensures Pass(e, OP_PRECEDENCE[row]) == e
  {
    RowHasRank(row);
    assert ExprPrecedence(e.rhs.rhs, OP_PRECEDENCE[row]) == e.rhs.rhs;
    assert ExprPrecedence(e.rhs, OP_PRECEDENCE[row]) == e.rhs;
  }

  lemma PassWraps(e: Expr, row: nat)
    requires IsPair(e) && row < |OP_PRECEDENCE| && RankOfRow(row) == Rank(e.rhs.op) != Rank(e.op)
    requires e.rhs.rhs.Term?
    ensures Pass(e, OP_PRECEDENCE[row]) == e.(rhs := ParenExpr(e.rhs))
  {
    RowHasRank(row);
    assert ExprPrecedence(e.rhs, OP_PRECEDENCE[row]) == ParenExpr(e.rhs);
  }

  lemma PassRotates(e: Expr, row: nat)
    requires IsPair(e) && row < |OP_PRECEDENCE| && RankOfRow(row) == Rank(e.op)
    ensures Pass(e, OP_PRECEDENCE[row]) == Rotate(e)
  {
    RowHasRank(row);
    var ops, f := OP_PRECEDENCE[row], Rotate(e);
    assert ExprPrecedence(f.rhs, ops) == f.rhs;
    assert ExprPrecedence(f, ops) in {f, ParenExpr(f)};
    assert UnwrapBinaryExpr(ParenExpr(f)) == UnwrapBinaryExpr(f) == f;
  }

  lemma {:induction false} PairFrom(e: Expr, row: nat)
    requires IsPair(e) && row <= RowOf(Rank(e.op))
    requires row <= RowOf(Rank(e.rhs.op)) || (Rank(e.rhs.op) < Rank(e.op) && e.rhs.rhs.ParenExpr?)
    ensures Rewrite(e, row) == PairGrouped(e)
    decreases |OP_PRECEDENCE| - row
  {
    var r := PairGrouped(e);
    if RankOfRow(row) == Rank(e.op) {
      PassRotates(e, row);
      SingleOperator(r, row + 1);
    } else if RankOfRow(row) == Rank(e.rhs.op) && e.rhs.rhs.Term? {
      PassWraps(e, row);
      SingleOperator(r, row + 1);
    } else {
      PassIdle(e, row);
      PairFrom(e, row + 1);
    }
  }

  /** One call on two operators. */
  lemma {:induction false} PairRewritten(e: Expr)
    requires IsPair(e)
    ensures Rewrite(e, 0) == PairGrouped(e)
  {
    PairFrom(e, 0);
  }

  // ---------------------------------------------------------------------------
  // Conventional precedence by the root
  // ---------------------------------------------------------------------------

  function Join(a: Links, op: BinaryOp, b: Links): (c: Links)
    ensures c.Link? && c.t == a.t
  {
    match a
    case End(t) => Link(t, op, b)
    case Link(t, o, rest) => Link(t, o, Join(rest, op, b))
  }

  lemma {:induction false} MergedJoin(a: Links, op: BinaryOp, b: Links, rank: nat)
    requires Rank(op) != rank
    ensures Merged(Join(a, op, b), rank) == Join(Merged(a, rank), op, Merged(b, rank))
    decreases Length(a)
  {
    if a.End? {
      assert Merged(Link(a.t, op, b), rank) == Link(a.t, op, Merged(b, rank));
    } else if Rank(a.op) == rank {
      var t := Node(a.op, a.t, a.rest.t);
      assert WithHead(Join(a.rest, op, b), t) == Join(WithHead(a.rest, t), op, b);
      MergedJoin(WithHead(a.rest, t), op, b, rank);
    } else {
      assert Merged(a, rank) == Link(a.t, a.op, Merged(a.rest, rank));
      MergedJoin(a.rest, op, b, rank);
    }
  }

  lemma {:induction false} MergedJoinLast(a: Links, op: BinaryOp, t: Tree, rank: nat)
    requires Rank(op) == rank && AllRank(LinkRanks(a), rank)
    ensures Merged(a, rank).End? && Merged(Join(a, op, End(t)), rank) == End(Node(op, Merged(a, rank).t, t))
    decreases Length(a)
  {
    if a.Link? {
      var left := Node(a.op, a.t, a.rest.t);
      assert LinkRanks(a)[0] == Rank(a.op) && LinkRanks(a)[1..] == LinkRanks(a.rest) == LinkRanks(WithHead(a.rest, left));
      assert WithHead(Join(a.rest, op, End(t)), left) == Join(WithHead(a.rest, left), op, End(t));
      MergedJoinLast(WithHead(a.rest, left), op, t, rank);
    }
  }

  lemma {:induction false} MergedSubset(c: Links, rank: nat, r: nat)
    requires r in LinkRanks(Merged(c, rank))
    ensures r in LinkRanks(c)
    decreases Length(c)
  {
    if c.Link? {
      assert LinkRanks(c) == [Rank(c.op)] + LinkRanks(c.rest);
      if Rank(c.op) == rank {
        var c' := WithHead(c.rest, Node(c.op, c.t, c.rest.t));
        assert LinkRanks(c') == LinkRanks(c.rest);
        MergedSubset(c', rank, r);
      } else if r != Rank(c.op) {
        MergedSubset(c.rest, rank, r);
      }
    }
  }

  /** No operator before is looser, and all after are tighter. */
  predicate Splits(before: seq<nat>, rank: nat, after: seq<nat>) {
    && (forall k :: 0 <= k < |before| ==> before[k] <= rank)
    && (forall k :: 0 <= k < |after| ==> after[k] < rank)
  }

  lemma {:induction false} HeadRank(c: Links)
    ensures c.Link? <==> LinkRanks(c) != []
    ensures c.Link? ==> LinkRanks(c)[0] == Rank(c.op)
  {
  }

  lemma {:induction false} SplitsLast(a: Links, op: BinaryOp, b: Links)
    requires Splits(LinkRanks(a), Rank(op), LinkRanks(b))
    requires MinRank(LinkRanks(a), Rank(op)) && MinRank(LinkRanks(b), Rank(op))
    ensures Conventional(Join(a, op, b), Rank(op)) == Node(op, Conventional(a, Rank(op)), Conventional(b, Rank(op)))
  {
    var from := Rank(op);
    assert b.End? by { HeadRank(b); }
    MergedJoinLast(a, op, b.t, from);
    EndGrouped(Merged(a, from), from + 1);
    EndGrouped(Merged(Join(a, op, b), from), from + 1);
    EndGrouped(b, from);
  }

  /** The last one of the loosest operators is the root, and both sides are grouped alike. */
  lemma {:induction false} ConventionalSplits(a: Links, op: BinaryOp, b: Links, from: nat)
    requires Splits(LinkRanks(a), Rank(op), LinkRanks(b)) && from <= Rank(op)
    requires MinRank(LinkRanks(a), from) && MinRank(LinkRanks(b), from)
    ensures Conventional(Join(a, op, b), from) == Node(op, Conventional(a, from), Conventional(b, from))
    decreases 7 - from
  {
    if from == Rank(op) {
      SplitsLast(a, op, b);
    } else {
      MergedJoin(a, op, b, from);
      SplitsKept(a, op, b, from);
      ConventionalSplits(Merged(a, from), op, Merged(b, from), from + 1);
    }
  }

  lemma SplitsKept(a: Links, op: BinaryOp, b: Links, from: nat)
    requires Splits(LinkRanks(a), Rank(op), LinkRanks(b))
    requires MinRank(LinkRanks(a), from) && MinRank(LinkRanks(b), from)
    ensures Splits(LinkRanks(Merged(a, from)), Rank(op), LinkRanks(Merged(b, from)))
    ensures MinRank(LinkRanks(Merged(a, from)), from + 1) && MinRank(LinkRanks(Merged(b, from)), from + 1)
  {
    MergedRanks(a, from);
    MergedRanks(b, from);
    var before, after := LinkRanks(Merged(a, from)), LinkRanks(Merged(b, from));
    forall k | 0 <= k < |before| ensures before[k] <= Rank(op) { MergedSubset(a, from, before[k]); }
    forall k | 0 <= k < |after| ensures after[k] < Rank(op) { MergedSubset(b, from, after[k]); }
  }

  // ---------------------------------------------------------------------------
  // The operators before and after a root
  // ---------------------------------------------------------------------------

  /** The chain before the operator at a position. */
  function Before(c: Links, j: nat): (r: Links)
    requires j <= Length(c)
    ensures Length(r) == j
  {
    if j == 0 then End(c.t) else Link(c.t, c.op, Before(c.rest, j - 1))
  }

  /** The chain after it. */
  function AfterOp(c: Links, j: nat): (r: Links)
    requires j < Length(c)
    ensures Length(r) == Length(c) - j - 1
  {
    if j == 0 then c.rest else AfterOp(c.rest, j - 1)
  }

  function OpAt(c: Links, j: nat): BinaryOp
    requires j < Length(c)
  {
    if j == 0 then c.op else OpAt(c.rest, j - 1)
  }

  lemma {:induction false} JoinedAt(c: Links, j: nat)
    requires j < Length(c)
    ensures Join(Before(c, j), OpAt(c, j), AfterOp(c, j)) == c
    ensures |LinkRanks(c)| == Length(c) && LinkRanks(c)[j] == Rank(OpAt(c, j))
    ensures LinkRanks(Before(c, j)) == LinkRanks(c)[..j] && LinkRanks(AfterOp(c, j)) == LinkRanks(c)[j + 1..]
  {
    RanksLength(c);
    RanksLength(Before(c, j));
    if j > 0 { JoinedAt(c.rest, j - 1); }
  }

  lemma {:induction false} RanksLength(c: Links)
    ensures |LinkRanks(c)| == Length(c)
  {
    if c.Link? { RanksLength(c.rest); }
  }

  /** The number of nodes and leaves: trees whose roots split a chain at different operators differ
      in the size of their left parts. */
  function Size(t: Tree): (n: nat)
    ensures n > 0
  {
    if t.Leaf? then 1 else Size(t.left) + 1 + Size(t.right)
  }

  function LinksSize(c: Links): (n: nat)
    ensures n > 0
  {
    if c.End? then Size(c.t) else Size(c.t) + 1 + LinksSize(c.rest)
  }

  lemma {:induction false} ShorterIsSmaller(c: Links, i: nat, j: nat)
    requires i < j <= Length(c)
    ensures LinksSize(Before(c, i)) < LinksSize(Before(c, j))
  {
    if i > 0 { ShorterIsSmaller(c.rest, i - 1, j - 1); }
  }

  lemma {:induction false} MergedSize(c: Links, rank: nat)
    ensures LinksSize(Merged(c, rank)) == LinksSize(c)
    decreases Length(c)
  {
    if c.Link? {
      if Rank(c.op) == rank {
        MergedSize(WithHead(c.rest, Node(c.op, c.t, c.rest.t)), rank);
      } else {
        MergedSize(c.rest, rank);
      }
    }
  }

  /** The operator at the position is the last one of the loosest. */
  predicate RootAt(ranks: seq<nat>, m: nat) {
    && m < |ranks|
    && (forall k :: 0 <= k < m ==> ranks[k] <= ranks[m])
    && (forall k :: m < k < |ranks| ==> ranks[k] < ranks[m])
  }

  function Loosest(ranks: seq<nat>): (m: nat)
    requires ranks != []
    ensures RootAt(ranks, m)
  {
    if |ranks| == 1 then 0
    else
      var m := Loosest(ranks[1..]);
      if ranks[0] > ranks[m + 1] then 0 else m + 1
  }

  /** The conventional grouping of a chain of operators, by its root. */
  lemma {:induction false} GroupedByRoot(c: Links, m: nat)
    requires m < Length(c) && RootAt(LinkRanks(c), m) && LinkRanks(c)[m] <= 6
    ensures Conventional(c, 0) == Node(OpAt(c, m), Conventional(Before(c, m), 0), Conventional(AfterOp(c, m), 0))
  {
    JoinedAt(c, m);
    ConventionalSplits(Before(c, m), OpAt(c, m), AfterOp(c, m), 0);
  }

  lemma {:induction false} ConventionalSize(c: Links, from: nat)
    requires forall k :: 0 <= k < |LinkRanks(c)| ==> from <= LinkRanks(c)[k] <= 6
    ensures Size(Conventional(c, from)) == LinksSize(c)
    decreases 7 - from
  {
    if from > 6 {
      HeadRank(c);
    } else {
      var m := Merged(c, from);
      MergedSize(c, from);
      MergedRanks(c, from);
      forall k | 0 <= k < |LinkRanks(m)| ensures LinkRanks(m)[k] <= 6 { MergedSubset(c, from, LinkRanks(m)[k]); }
      ConventionalSize(m, from + 1);
    }
  }

  /** When a grouping with a root at this operator is the conventional one. */
  lemma {:induction false} SameRootIff(c: Links, j: nat, left: Tree, right: Tree)
    requires j < Length(c) && Known(LinkRanks(c)) && Size(left) == LinksSize(Before(c, j))
    ensures Node(OpAt(c, j), left, right) == Conventional(c, 0)
       <==> RootAt(LinkRanks(c), j) && left == Conventional(Before(c, j), 0) && right == Conventional(AfterOp(c, j), 0)
  {
    RanksLength(c);
    var m := Loosest(LinkRanks(c));
    JoinedAt(c, m);
    GroupedByRoot(c, m);
    if j != m {
      ConventionalSize(Before(c, m), 0);
      if j < m { ShorterIsSmaller(c, j, m); } else { ShorterIsSmaller(c, m, j); }
    }
  }

  // ---------------------------------------------------------------------------
  // What the parser makes of a chain
  // ---------------------------------------------------------------------------

  /** All operators applied from right to left. */
  function RightTree(c: Links): (t: Tree)
    ensures Size(t) == LinksSize(c)
  {
    if c.End? then c.t else Node(c.op, c.t, RightTree(c.rest))
  }

  predicate Falling(ranks: seq<nat>) {
    forall i, j :: 0 <= i < j < |ranks| ==> ranks[i] > ranks[j]
  }

  /** That is conventional if and only if each operator is looser than all after it. */
  lemma {:induction false} RightTreeIff(c: Links)
    requires Known(LinkRanks(c))
    ensures RightTree(c) == Conventional(c, 0) <==> Falling(LinkRanks(c))
  {
    EndGrouped(End(c.t), 0);
    if c.Link? {
      HeadRank(c);
      assert LinkRanks(c)[1..] == LinkRanks(c.rest);
      RightTreeIff(c.rest);
      SameRootIff(c, 0, c.t, RightTree(c.rest));
      assert Falling(LinkRanks(c)) <==> RootAt(LinkRanks(c), 0) && Falling(LinkRanks(c.rest)) by {
        FallingTail(LinkRanks(c));
      }
    }
  }

  lemma FallingTail(ranks: seq<nat>)
    requires ranks != []
    ensures Falling(ranks) <==> RootAt(ranks, 0) && Falling(ranks[1..])
  {
    if RootAt(ranks, 0) && Falling(ranks[1..]) {
      forall i, j | 0 <= i < j < |ranks| ensures ranks[i] > ranks[j] {
        if i > 0 { assert ranks[1..][i - 1] > ranks[1..][j - 1]; }
      }
    }
  }

  /** The last operator is the root, and those before it are applied from right to left. */
  function LastTree(c: Links): Tree {
    if c.End? then c.t
    else Node(OpAt(c, Length(c) - 1), RightTree(Before(c, Length(c) - 1)), AfterOp(c, Length(c) - 1).t)
  }

  lemma {:induction false} LastTreeIff(c: Links)
    requires Known(LinkRanks(c))
    ensures LastTree(c) == Conventional(c, 0)
       <==> c.End? || (RootAt(LinkRanks(c), Length(c) - 1) && Falling(LinkRanks(c)[..Length(c) - 1]))
  {
    if c.End? {
      EndGrouped(c, 0);
    } else {
      var last := Length(c) - 1;
      JoinedAt(c, last);
      EndGrouped(AfterOp(c, last), 0);
      RightTreeIff(Before(c, last));
      SameRootIff(c, last, RightTree(Before(c, last)), AfterOp(c, last).t);
    }
  }

  /** The operator that ends up at the root: the last one that is looser than the last operator of
      the chain, if the last operand is not parenthesised; if it is, or if there is none, the last
      operator. */
  function SuffixRoot(ranks: seq<nat>, parenLast: bool): (j: nat)
    requires ranks != []
    ensures StandsOut(ranks, j)
    ensures parenLast ==> j == |ranks| - 1
    ensures !parenLast && j == |ranks| - 1 ==> forall k :: 0 <= k < |ranks| ==> ranks[k] <= Last(ranks)
  {
    if |ranks| == 1 then 0
    else
      var j := SuffixRoot(ranks[1..], parenLast);
      if !parenLast && j == |ranks| - 2 && ranks[0] > Last(ranks) then 0 else j + 1
  }

  /** It is looser than the last operator, unless it is that one, and no operator between is. */
  predicate StandsOut(ranks: seq<nat>, j: nat) {
    && j < |ranks|
    && (j < |ranks| - 1 ==> ranks[j] > Last(ranks))
    && (forall k :: j < k < |ranks| ==> ranks[k] <= Last(ranks))
  }

  /** The operators before the root are applied from right to left. So are those after it but the
      last one, which is applied last of them. */
  predicate ParsedAs(r: Expr, c: Links, j: nat, parenLast: bool)
    requires j < Length(c)
  {
    && r.BinaryExpr? && !r.lhs.BinaryExpr? && !r.rhs.BinaryExpr? && r.op == OpAt(c, j)
    && Strip(r.lhs) == RightTree(Before(c, j)) && Strip(r.rhs) == LastTree(AfterOp(c, j))
    && (r.rhs.ParenExpr? <==> j < Length(c) - 1 || parenLast)
  }

  /** One call: either the operator that comes in becomes the root, before all others, or the root
      stays. */
  lemma {:induction false} CallShape(e: Expr, rest: Expr, j: nat, k: nat, parenLast: bool)
    requires e.BinaryExpr? && j < Length(LinksOf(e.rhs)) && ParsedAs(rest, LinksOf(e.rhs), j, parenLast)
    requires IsPair(e.(rhs := rest))
    requires k == if Rank(rest.op) < Rank(e.op) && j == Length(LinksOf(e.rhs)) - 1 && !parenLast then 0 else j + 1
    ensures ParsedAs(Rewrite(e.(rhs := rest), 0), LinksOf(e), k, parenLast)
  {
    PairRewritten(e.(rhs := rest));
    if Rank(rest.op) < Rank(e.op) && rest.rhs.Term? {
      RootComesIn(e, rest, j);
    } else {
      RootStays(e, rest, j, parenLast);
    }
  }

  lemma {:induction false} RootComesIn(e: Expr, rest: Expr, j: nat)
    requires e.BinaryExpr? && !e.lhs.BinaryExpr? && j + 1 == Length(LinksOf(e.rhs)) && ParsedAs(rest, LinksOf(e.rhs), j, false)
    ensures ParsedAs(e.(rhs := ParenExpr(rest)), LinksOf(e), 0, false)
  {
    var c := LinksOf(e.rhs);
    assert AfterOp(c, j).End?;
    assert Strip(rest) == LastTree(c);
    assert AfterOp(LinksOf(e), 0) == c && Before(LinksOf(e), 0) == End(Strip(e.lhs));
  }

  lemma {:induction false} RootStays(e: Expr, rest: Expr, j: nat, parenLast: bool)
    requires e.BinaryExpr? && !e.lhs.BinaryExpr? && j < Length(LinksOf(e.rhs)) && ParsedAs(rest, LinksOf(e.rhs), j, parenLast)
    ensures ParsedAs(Rotate(e.(rhs := rest)), LinksOf(e), j + 1, parenLast)
  {
    var c, r := LinksOf(e), Rotate(e.(rhs := rest));
    assert c == Link(Strip(e.lhs), e.op, LinksOf(e.rhs));
    LaterRoot(c, j);
    assert Strip(r.lhs) == Node(e.op, Strip(e.lhs), Strip(rest.lhs)) && r.rhs == rest.rhs && r.op == rest.op;
  }

  lemma {:induction false} LaterRoot(c: Links, j: nat)
    requires c.Link? && j < Length(c.rest)
    ensures AfterOp(c, j + 1) == AfterOp(c.rest, j) && OpAt(c, j + 1) == OpAt(c.rest, j)
    ensures RightTree(Before(c, j + 1)) == Node(c.op, c.t, RightTree(Before(c.rest, j)))
  {
    assert Before(c, j + 1) == Link(c.t, c.op, Before(c.rest, j));
  }

  lemma {:induction false} ParsedShape(e: Expr)
    requires e.BinaryExpr? && Chain(e) && Known(ChainRanks(e))
    ensures ChainRanks(e) != [] && |ChainRanks(e)| == Length(LinksOf(e))
    ensures ParsedAs(ParseSuffixes(e), LinksOf(e), SuffixRoot(ChainRanks(e), LastOperand(e).ParenExpr?), LastOperand(e).ParenExpr?)
  {
    var ranks, parenLast := ChainRanks(e), LastOperand(e).ParenExpr?;
    assert |ranks| == Length(LinksOf(e)) by { ChainLength(e); }
    assert ranks == [Rank(e.op)] + ChainRanks(e.rhs);
    if e.rhs.BinaryExpr? {
      assert ChainRanks(e.rhs) == ranks[1..] && Rank(e.op) == ranks[0];
      ParsedShape(e.rhs);
      CallKeepsShape(e, ParseSuffixes(e.rhs), parenLast);
    } else {
      SingleOperator(e, 0);
      assert LinksOf(e) == Link(Strip(e.lhs), e.op, End(Strip(e.rhs)));
    }
  }

  lemma {:induction false} ChainLength(e: Expr)
    ensures |ChainRanks(e)| == Length(LinksOf(e))
  {
    LinkRanksOf(e);
    RanksLength(LinksOf(e));
  }

  lemma {:induction false} RootRank(e: Expr, j: nat)
    requires j < Length(LinksOf(e))
    ensures |ChainRanks(e)| == Length(LinksOf(e)) && Rank(OpAt(LinksOf(e), j)) == ChainRanks(e)[j]
  {
    JoinedAt(LinksOf(e), j);
    LinkRanksOf(e);
  }

  lemma {:induction false} SuffixRootStep(rank: nat, ranks: seq<nat>, parenLast: bool)
    requires ranks != []
    ensures var j := SuffixRoot(ranks, parenLast);
      SuffixRoot([rank] + ranks, parenLast) == if !parenLast && j == |ranks| - 1 && rank > ranks[j] then 0 else j + 1
  {
    var all := [rank] + ranks;
    assert all[0] == rank && all[1..] == ranks && Last(all) == Last(ranks);
  }

  lemma {:induction false} CallKeepsShape(e: Expr, rest: Expr, parenLast: bool)
    requires e.BinaryExpr? && !e.lhs.BinaryExpr? && Rank(e.op) <= 5 && Known(ChainRanks(e.rhs))
    requires ChainRanks(e.rhs) != [] && |ChainRanks(e.rhs)| == Length(LinksOf(e.rhs))
    requires ParsedAs(rest, LinksOf(e.rhs), SuffixRoot(ChainRanks(e.rhs), parenLast), parenLast)
    ensures Length(LinksOf(e)) == |ChainRanks(e)|
    ensures ParsedAs(Rewrite(e.(rhs := rest), 0), LinksOf(e), SuffixRoot(ChainRanks(e), parenLast), parenLast)
  {
    var j := SuffixRoot(ChainRanks(e.rhs), parenLast);
    ChainLength(e);
    SuffixRootStep(Rank(e.op), ChainRanks(e.rhs), parenLast);
    RootRank(e.rhs, j);
    CallShape(e, rest, j, SuffixRoot(ChainRanks(e), parenLast), parenLast);
  }

  /** The check on the ranks of a chain with this root: no operator before the root is looser than
      it, each one before the root is looser than all after it that come before the root, and
      likewise for those between the root and the last operator. */
  predicate SettlesAt(ranks: seq<nat>, j: nat)
    requires j < |ranks|
  {
    && (forall i :: 0 <= i < j ==> ranks[i] <= ranks[j])
    && Falling(ranks[..j])
    && (j < |ranks| - 1 ==> Falling(ranks[j + 1..|ranks| - 1]))
  }

  predicate SuffixesSettle(ranks: seq<nat>, parenLast: bool)
    requires ranks != []
  {
    SettlesAt(ranks, SuffixRoot(ranks, parenLast))
  }

  lemma {:induction false} BeforeIff(c: Links, j: nat)
    requires Known(LinkRanks(c)) && |LinkRanks(c)| == Length(c) && j < Length(c)
    ensures RightTree(Before(c, j)) == Conventional(Before(c, j), 0) <==> Falling(LinkRanks(c)[..j])
  {
    JoinedAt(c, j);
    RightTreeIff(Before(c, j));
  }

  lemma NoneStandsOutAfter(ranks: seq<nat>, j: nat)
    requires StandsOut(ranks, j) && j < |ranks| - 1
    ensures var after := ranks[j + 1..];
      RootAt(after, |after| - 1) && after[..|after| - 1] == ranks[j + 1..|ranks| - 1]
  {
    var after := ranks[j + 1..];
    assert after[|after| - 1] == Last(ranks);
    forall k | 0 <= k < |after| ensures after[k] <= Last(ranks) { assert after[k] == ranks[j + 1 + k]; }
  }

  lemma {:induction false} AfterIff(c: Links, j: nat)
    requires Known(LinkRanks(c)) && |LinkRanks(c)| == Length(c) && StandsOut(LinkRanks(c), j)
    ensures LastTree(AfterOp(c, j)) == Conventional(AfterOp(c, j), 0)
       <==> (j < Length(c) - 1 ==> Falling(LinkRanks(c)[j + 1..Length(c) - 1]))
  {
    var after := AfterOp(c, j);
    if j < Length(c) - 1 {
      assert LinkRanks(after) == LinkRanks(c)[j + 1..] by { JoinedAt(c, j); }
      AfterMiddleIff(after, LinkRanks(c), j);
    } else {
      EndGrouped(after, 0);
    }
  }

  lemma {:induction false} AfterMiddleIff(after: Links, ranks: seq<nat>, j: nat)
    requires Known(ranks) && StandsOut(ranks, j) && j < |ranks| - 1
    requires LinkRanks(after) == ranks[j + 1..] && Length(after) == |ranks| - j - 1
    ensures LastTree(after) == Conventional(after, 0) <==> Falling(ranks[j + 1..|ranks| - 1])
  {
    NoneStandsOutAfter(ranks, j);
    LastTreeIff(after);
  }

  lemma {:induction false} SettlesIff(c: Links, j: nat)
    requires Known(LinkRanks(c)) && |LinkRanks(c)| == Length(c) && StandsOut(LinkRanks(c), j)
    ensures Node(OpAt(c, j), RightTree(Before(c, j)), LastTree(AfterOp(c, j))) == Conventional(c, 0)
       <==> SettlesAt(LinkRanks(c), j)
  {
    SameRootIff(c, j, RightTree(Before(c, j)), LastTree(AfterOp(c, j)));
    BeforeIff(c, j);
    AfterIff(c, j);
  }

  /** For every chain that the table's operators can form: the span-query parser groups it
      conventionally if and only if the ranks of its operators pass the check. */
  lemma {:induction false} SuffixesGroupedIff(e: Expr)
    requires e.BinaryExpr? && Chain(e) && Known(ChainRanks(e))
    ensures ChainRanks(e) != []
    ensures Strip(ParseSuffixes(e)) == Expected(e)
       <==> SuffixesSettle(ChainRanks(e), LastOperand(e).ParenExpr?)
  {
    var c, ranks := LinksOf(e), ChainRanks(e);
    LinkRanksOf(e);
    RanksLength(c);
    assert ranks == [Rank(e.op)] + ChainRanks(e.rhs);
    var j := SuffixRoot(ranks, LastOperand(e).ParenExpr?);
    assert Strip(ParseSuffixes(e)) == Node(OpAt(c, j), RightTree(Before(c, j)), LastTree(AfterOp(c, j))) by {
      ParsedShape(e);
    }
    SettlesIff(c, j);
  }

  // ---------------------------------------------------------------------------
  // Chains that are misread
  // ---------------------------------------------------------------------------

  /** `a - b - c - d` is read as `(a - (b - c)) - d`, although the rewriting of the whole chain
      would nest it to the left. */
  lemma DifferencesMisread()
    ensures var e := BinaryExpr(Sub, Term(0), BinaryExpr(Sub, Term(1), BinaryExpr(Sub, Term(2), Term(3))));
      Strip(ParseSuffixes(e)) == Node(Sub, Node(Sub, Leaf(0), Node(Sub, Leaf(1), Leaf(2))), Leaf(3))
  {
    var cd := BinaryExpr(Sub, Term(2), Term(3));
    var bcd := BinaryExpr(Sub, Term(1), cd);
    SingleOperator(cd, 0);
    PairRewritten(bcd);
    PairRewritten(BinaryExpr(Sub, Term(0), Rotate(bcd)));
  }

  /** `a / b / c + d` is read as `(a / (b / c)) + d`. */
  lemma QuotientsMisread()
    ensures var e := BinaryExpr(Div, Term(0), BinaryExpr(Div, Term(1), BinaryExpr(Add, Term(2), Term(3))));
      Strip(ParseSuffixes(e)) == Node(Add, Node(Div, Leaf(0), Node(Div, Leaf(1), Leaf(2))), Leaf(3))
  {
    var cd := BinaryExpr(Add, Term(2), Term(3));
    var bcd := BinaryExpr(Div, Term(1), cd);
    SingleOperator(cd, 0);
    PairRewritten(bcd);
    PairRewritten(BinaryExpr(Div, Term(0), Rotate(bcd)));
  }
}
