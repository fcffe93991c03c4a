/** Whole runs over a stack of caches. However many layers there are, and whatever was cached,
    dropped or flushed on the way, every answer is the one a stack of plain coin sets would give. */
module CoinsStack {
  import opened Common
  import opened CoinsCache

  datatype Op =
    | Get(o: OutPoint)
    | Have(o: OutPoint)
    | Add(o: OutPoint, coin: Coin, possibleOverwrite: bool)
    | Spend(o: OutPoint)
    | Uncache(o: OutPoint)
    | GetBest
    | SetBest(hash: Option<nat>)
    | Flush
    | Push              // put a new empty cache on top
    | Discard           // forget the top cache unless it is the last one

  datatype Answer = Found(coin: Coin) | Missing | Yes | No | Moved(coin: Coin) | Best(hash: Option<nat>) | Ack

  // ---------------------------------------------------------------- plain sets

  /** Plain sets and the best block stored with each, top first, the database last. */
  datatype Plain = Plain(views: seq<UtxoSet>, bests: seq<Option<nat>>)

  predicate Proper(stack: Plain) { |stack.views| == |stack.bests| >= 2 }

  /** What an operation does to a plain stack. */
  function PlainStep(stack: Plain, op: Op): (r: Plain)
    requires Proper(stack)
    ensures Proper(r)
  {
    var (views, bests) := (stack.views, stack.bests);
    match op
    case Get(_) => stack
    case Have(_) => stack
    case Add(o, coin, _) =>
      if coin.Spent? || coin.IsUnspendable() then stack else stack.(views := views[0 := views[0][o := coin]])
    case Spend(o) => stack.(views := views[0 := views[0] - {o}])
    case Uncache(_) => stack
    case GetBest => stack.(bests := Looked(bests))
    case SetBest(hash) => stack.(bests := bests[0 := hash])
    case Flush => Plain(views[1 := views[0]], bests[1 := bests[0]])
    case Push => Plain([views[0]] + views, [None] + bests)
    case Discard => if |views| > 2 then Plain(views[1..], bests[1..]) else stack
  }

  function PlainAnswer(stack: Plain, op: Op): Answer
    requires Proper(stack)
  {
    match op
    case Get(o) => if o in stack.views[0] then Found(stack.views[0][o]) else Missing
    case Have(o) => if o in stack.views[0] then Yes else No
    case Spend(o) => Moved(if o in stack.views[0] then stack.views[0][o] else Spent)
    case GetBest => Best(Known(stack.bests))
    case _ => Ack
  }

  /** What callers promise: only unspent coins are added, an add that claims not to overwrite does not,
      and what is flushed to the database has a best block. */
  predicate Promised(stack: Plain, op: Op)
    requires Proper(stack)
  {
    && (op.Add? ==> op.coin.Unspent? && (op.possibleOverwrite || op.o !in stack.views[0]))
    && (op.Flush? && |stack.views| == 2 ==> stack.bests[0].Some?)
  }

  function PlainRun(stack: Plain, ops: seq<Op>): (r: Plain)
    requires Proper(stack)
    ensures Proper(r)
  {
    if ops == [] then stack else PlainStep(PlainRun(stack, ops[..|ops| - 1]), ops[|ops| - 1])
  }

  function PlainAnswers(stack: Plain, ops: seq<Op>): seq<Answer>
    requires Proper(stack)
  {
    if ops == [] then []
    else PlainAnswers(stack, ops[..|ops| - 1]) + [PlainAnswer(PlainRun(stack, ops[..|ops| - 1]), ops[|ops| - 1])]
  }

  ghost predicate AllPromised(stack: Plain, ops: seq<Op>)
    requires Proper(stack)
  {
    forall i :: 0 <= i < |ops| ==> Promised(PlainRun(stack, ops[..i]), ops[i])
  }

  // ---------------------------------------------------------------- where the database's best block comes from

  /** Flush to the next layer and go there, n times, and then to the database. */
  function AllTheWayDown(n: nat): seq<Op> { if n == 0 then [Flush] else AllTheWayDown(n - 1) + [Discard, Flush] }

  lemma {:induction false} DownStep(stack: Plain, n: nat)
    requires Proper(stack) && n + 2 <= |stack.views|
    ensures var r := PlainRun(stack, AllTheWayDown(n));
            && |r.views| == |stack.views| - n
            && r.views[0] == r.views[1] == stack.views[0] && r.bests[0] == r.bests[1] == stack.bests[0]
            && r.views[2..] == stack.views[n + 2..] && r.bests[2..] == stack.bests[n + 2..]
  {
    var ops := AllTheWayDown(n);
    if n == 0 {
      assert ops[..0] == [];
    } else {
      var before := AllTheWayDown(n - 1);
      DownStep(stack, n - 1);
      assert ops[..|ops| - 1] == before + [Discard];
      assert (before + [Discard])[..|before|] == before;
      var r := PlainRun(stack, before);
      assert PlainRun(stack, before + [Discard]) == PlainStep(r, Discard);
      assert PlainRun(stack, ops) == PlainStep(PlainStep(r, Discard), Flush);
      assert r.views[2] == r.views[2..][0] && stack.views[n + 1] == stack.views[n + 1..][0];
    }
  }

  /** Set a best block, flush to the bottom: the database has that block and what the top showed. */
  lemma SetAndFlushed(stack: Plain, hash: nat)
    requires Proper(stack)
    ensures var n := |stack.views| - 2;
            var r := PlainRun(PlainStep(stack, SetBest(Some(hash))), AllTheWayDown(n));
            r == Plain([stack.views[0], stack.views[0]], [Some(hash), Some(hash)])
  {
    var marked := PlainStep(stack, SetBest(Some(hash)));
    var n := |stack.views| - 2;
    DownStep(marked, n);
    var r := PlainRun(marked, AllTheWayDown(n));
    assert r.views == [r.views[0], r.views[1]] && r.bests == [r.bests[0], r.bests[1]];
  }

  /** The operations that reach the database. */
  predicate WritesThrough(stack: Plain, op: Op)
    requires Proper(stack)
  {
    op.Flush? && |stack.views| == 2
  }

  /** What the database holds. */
  function Bottom(s: Plain): (UtxoSet, Option<nat>)
    requires Proper(s)
  {
    (s.views[|s.views| - 1], s.bests[|s.views| - 1])
  }

  /** In any run the database holds what it held at first, or, coins and best block together, what the lowest
      cache showed and had stored when it was last flushed. */
  lemma {:induction false} DatabaseHolds(stack: Plain, ops: seq<Op>)
    requires Proper(stack)
    ensures || (NoWrite(stack, ops) && Bottom(PlainRun(stack, ops)) == Bottom(stack))
            || exists i :: LastWrite(stack, ops, i) && Bottom(PlainRun(stack, ops)) == TopAt(stack, ops, i)
  {
    if ops != [] {
      var n := |ops| - 1;
      DatabaseHolds(stack, ops[..n]);
      var s := PlainRun(stack, ops[..n]);
      assert PlainRun(stack, ops) == PlainStep(s, ops[n]);
      hide PlainRun, PlainStep, WritesThrough, Bottom, NoWrite, LastWrite, TopAt;
      DatabaseStep(s, ops[n]);
      if WritesThrough(s, ops[n]) {
        WrittenNow(stack, ops);
      } else if NoWrite(stack, ops[..n]) && Bottom(s) == Bottom(stack) {
        NoWriteYet(stack, ops);
      } else {
        var i :| LastWrite(stack, ops[..n], i) && Bottom(s) == TopAt(stack, ops[..n], i);
        WrittenBefore(stack, ops, i);
      }
    }
  }

  lemma WrittenNow(stack: Plain, ops: seq<Op>)
    requires Proper(stack) && ops != [] && WritesThrough(PlainRun(stack, ops[..|ops| - 1]), ops[|ops| - 1])
    ensures LastWrite(stack, ops, |ops| - 1)
    ensures var s := PlainRun(stack, ops[..|ops| - 1]); TopAt(stack, ops, |ops| - 1) == (s.views[0], s.bests[0])
  {
    hide PlainRun, WritesThrough;
  }

  lemma NoWriteYet(stack: Plain, ops: seq<Op>)
    requires Proper(stack) && ops != [] && NoWrite(stack, ops[..|ops| - 1])
    requires !WritesThrough(PlainRun(stack, ops[..|ops| - 1]), ops[|ops| - 1])
    ensures NoWrite(stack, ops)
  {
    assert !WriteAt(stack, ops, |ops| - 1);
    hide PlainRun, WritesThrough, WriteAt;
    forall i | 0 <= i < |ops| ensures !WriteAt(stack, ops, i) {
      if i < |ops| - 1 { SameBefore(stack, ops, i); }
    }
  }

  lemma WrittenBefore(stack: Plain, ops: seq<Op>, i: int)
    requires Proper(stack) && ops != [] && LastWrite(stack, ops[..|ops| - 1], i)
    requires !WritesThrough(PlainRun(stack, ops[..|ops| - 1]), ops[|ops| - 1])
    ensures LastWrite(stack, ops, i) && TopAt(stack, ops, i) == TopAt(stack, ops[..|ops| - 1], i)
  {
    assert !WriteAt(stack, ops, |ops| - 1);
    hide PlainRun, WritesThrough, WriteAt, TopAt;
    SameBefore(stack, ops, i);
    forall j | i < j < |ops| ensures !WriteAt(stack, ops, j) {
      if j < |ops| - 1 { SameBefore(stack, ops, j); }
    }
  }

  /** What comes before the last operation does not depend on it. */
  lemma SameBefore(stack: Plain, ops: seq<Op>, i: nat)
    requires Proper(stack) && i < |ops| - 1
    ensures WriteAt(stack, ops[..|ops| - 1], i) == WriteAt(stack, ops, i)
    ensures TopAt(stack, ops[..|ops| - 1], i) == TopAt(stack, ops, i)
  {
    hide PlainRun, WritesThrough;
    assert ops[..|ops| - 1][..i] == ops[..i];
  }

  predicate WriteAt(stack: Plain, ops: seq<Op>, i: int)
    requires Proper(stack) && 0 <= i < |ops|
  {
    WritesThrough(PlainRun(stack, ops[..i]), ops[i])
  }

  ghost predicate NoWrite(stack: Plain, ops: seq<Op>)
    requires Proper(stack)
  {
    forall i :: 0 <= i < |ops| ==> !WriteAt(stack, ops, i)
  }

  /** What the top showed and had stored before the i-th operation. */
  function TopAt(stack: Plain, ops: seq<Op>, i: int): (UtxoSet, Option<nat>)
    requires Proper(stack) && 0 <= i < |ops|
  {
    (PlainRun(stack, ops[..i]).views[0], PlainRun(stack, ops[..i]).bests[0])
  }

  ghost predicate LastWrite(stack: Plain, ops: seq<Op>, i: int)
    requires Proper(stack)
  {
    0 <= i < |ops| && WriteAt(stack, ops, i) && forall j :: i < j < |ops| ==> !WriteAt(stack, ops, j)
  }

  lemma DatabaseStep(s: Plain, op: Op)
    requires Proper(s)
    ensures Bottom(PlainStep(s, op)) == if WritesThrough(s, op) then (s.views[0], s.bests[0]) else Bottom(s)
  {
    if op.GetBest? { LookedKeepsLast(s.bests); }
  }

  lemma {:induction false} LookedKeepsLast(bests: seq<Option<nat>>)
    requires bests != []
    ensures Looked(bests)[|bests| - 1] == bests[|bests| - 1]
  {
    if !(|bests| == 1 || bests[0].Some?) {
      LookedKeepsLast(bests[1..]);
    }
  }

  // ---------------------------------------------------------------- the caches

  ghost function StackOf(top: CoinsViewCache): Plain
    requires top.Linked()
    reads top.Repr
  {
    Plain(top.Views(), top.Bests())
  }

  lemma StackProper(top: CoinsViewCache)
    requires top.Linked()
    ensures Proper(StackOf(top)) && (top.parent == null <==> |top.Views()| == 2)
    ensures top.parent != null ==> StackOf(top.parent) == Plain(top.Views()[1..], top.Bests()[1..])
  {
    top.Heights();
    if top.parent != null {
      assert top.Views()[1..] == top.Below() == top.parent.Views();
      assert top.Bests()[1..] == top.Deeper() == top.parent.Bests();
    }
  }

  /** Reading, adding and spending coins. */
  method ApplyCoin(top: CoinsViewCache, op: Op) returns (answer: Answer)
    requires top.Valid() && top.Accounted() && Proper(StackOf(top)) && Promised(StackOf(top), op)
    requires op.Get? || op.Have? || op.Add? || op.Spend? || op.Uncache?
    modifies top.Repr
    ensures top.Valid() && top.Accounted()
    ensures top.Views() == PlainStep(old(StackOf(top)), op).views && top.Bests() == old(top.Bests())
    ensures answer == PlainAnswer(old(StackOf(top)), op)
  {
    hide Overlay, Usage, Honest, Coin.IsUnspendable;
    answer := Ack;
    match op
    case Get(o) =>
      var found, coin := top.GetCoin(o);
      answer := if found then Found(coin) else Missing;
    case Have(o) =>
      var have := top.HaveCoin(o);
      answer := if have then Yes else No;
    case Add(o, coin, possibleOverwrite) =>
      OverlayAt(top.Under(), top.cacheCoins, o);
      var thrown := top.AddCoin(o, coin, possibleOverwrite);
      assert !thrown;
    case Spend(o) =>
      var ok, moved := top.SpendCoin(o);
      answer := Moved(moved);
    case Uncache(o) =>
      top.Uncache(o);
  }

  /** The best block and flushing. */
  method ApplyBest(top: CoinsViewCache, op: Op) returns (answer: Answer)
    requires top.Valid() && top.Accounted() && Proper(StackOf(top)) && Promised(StackOf(top), op)
    requires op.GetBest? || op.SetBest? || op.Flush?
    modifies top.Repr
    ensures top.Valid() && top.Accounted()
    ensures StackOf(top) == PlainStep(old(StackOf(top)), op)
    ensures answer == PlainAnswer(old(StackOf(top)), op)
  {
    StackProper(top);
    hide Overlay, Usage, Honest, Known, Looked;
    answer := Ack;
    match op
    case GetBest =>
      var best := top.GetBestBlock();
      answer := Best(best);
    case SetBest(hash) =>
      top.SetBestBlock(hash);
    case Flush =>
      var ok := top.Flush();
      assert ok;
  }

  /** One operation on the top cache. */
  method Apply(top: CoinsViewCache, op: Op) returns (top': CoinsViewCache, answer: Answer)
    requires top.Valid() && top.Accounted() && Proper(StackOf(top)) && Promised(StackOf(top), op)
    modifies top.Repr
    ensures top'.Valid() && top'.Accounted() && fresh(top'.Repr - top.Repr)
    ensures StackOf(top') == PlainStep(old(StackOf(top)), op)
    ensures answer == PlainAnswer(old(StackOf(top)), op)
  {
    StackProper(top);
    hide Overlay, Usage, Honest, Coin.IsUnspendable, Known, Looked;
    top', answer := top, Ack;
    if op.Push? {
      top' := new CoinsViewCache(top);
    } else if op.Discard? {
      if top.parent != null {
        top' := top.parent;
      }
    } else if op.GetBest? || op.SetBest? || op.Flush? {
      answer := ApplyBest(top, op);
    } else {
      answer := ApplyCoin(top, op);
    }
  }

  /** A run of any length from any valid stack, at any depth. */
  method Run(top0: CoinsViewCache, ops: seq<Op>) returns (top: CoinsViewCache, answers: seq<Answer>)
    requires top0.Valid() && top0.Accounted() && Proper(StackOf(top0)) && AllPromised(StackOf(top0), ops)
    modifies top0.Repr
    ensures top.Valid() && top.Accounted()
    ensures StackOf(top) == PlainRun(old(StackOf(top0)), ops)
    ensures answers == PlainAnswers(old(StackOf(top0)), ops)
  {
    hide PlainStep, PlainAnswer, CoinsViewCache.Valid, CoinsViewCache.Accounted, StackOf;
    ghost var stack := StackOf(top0);
    top, answers := top0, [];
    for i := 0 to |ops|
      invariant top.Valid() && top.Accounted() && fresh(top.Repr - top0.Repr)
      invariant Proper(stack) && AllPromised(stack, ops)
      invariant StackOf(top) == PlainRun(stack, ops[..i])
      invariant answers == PlainAnswers(stack, ops[..i])
    {
      assert ops[..i + 1][..i] == ops[..i];
      var answer;
      top, answer := Apply(top, ops[i]);
      answers := answers + [answer];
    }
    assert ops[..|ops|] == ops;
  }
}
