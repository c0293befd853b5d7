/**
 * The remote label store the tool talks to over HTTP, reduced to its effect:
 * each repository holds a list of labels, and a create, update or delete call
 * either succeeds and changes that list, or fails and changes nothing.
 * Whether a call succeeds is not under the tool's control.
 */
module Store {
  import opened LabelSets
  import opened Reconciliation

  /** A call as it goes on the wire: which repository, which operation. */
  datatype Request = Request(repo: string, op: Op)

  /** The store refuses a create of an existing name and an update or delete of a missing one. */
  predicate Applicable(s: seq<Label>, op: Op)
  {
    match op
    case Create(n, _) => n !in Names(s)
    case Update(n, _) => n in Names(s)
    case Delete(n) => n in Names(s)
  }

  /** The labels with the colour of name `n` set to `c`, positions unchanged. */
  function Recolor(s: seq<Label>, n: string, c: string): seq<Label>
  {
    seq(|s|, i requires 0 <= i < |s| => if s[i].name == n then Label(n, c) else s[i])
  }

  /** What a successful call does to the repository's list. A created label goes last. */
  function ApplyOp(s: seq<Label>, op: Op): seq<Label>
  {
    match op
    case Create(n, c) => s + [Label(n, c)]
    case Update(n, c) => Recolor(s, n, c)
    case Delete(n) => Without(s, {n})
  }

  /** The list after every call of `ops` succeeded, in order. */
  function ApplyOps(s: seq<Label>, ops: seq<Op>): seq<Label>
  {
    if ops == [] then s
    else ApplyOp(ApplyOps(s, ops[..|ops| - 1]), ops[|ops| - 1])
  }

  /** The store would accept every call of `ops`, each in the state the earlier ones leave. */
  predicate Accepts(s: seq<Label>, ops: seq<Op>)
  {
    ops == [] || (Accepts(s, ops[..|ops| - 1]) && Applicable(ApplyOps(s, ops[..|ops| - 1]), ops[|ops| - 1]))
  }

  /** The whole store after one request with the given outcome. */
  function Deliver(repos: map<string, seq<Label>>, q: Request, ok: bool): (r: map<string, seq<Label>>)
    ensures r.Keys == repos.Keys
  {
    if ok && q.repo in repos then repos[q.repo := ApplyOp(repos[q.repo], q.op)] else repos
  }

  /** The whole store after a run of requests with the given outcomes. */
  function Replay(repos: map<string, seq<Label>>, reqs: seq<Request>, oks: seq<bool>): (r: map<string, seq<Label>>)
    requires |reqs| == |oks|
    ensures r.Keys == repos.Keys
  {
    if reqs == [] then repos
    else Deliver(Replay(repos, reqs[..|reqs| - 1], oks[..|oks| - 1]), reqs[|reqs| - 1], oks[|oks| - 1])
  }

  /** The number of items the API returns for a listing without a page parameter. */
  const PageSize: nat := 30

  /** What one unpaged listing shows of a repository's labels. */
  function FirstPage(s: seq<Label>): (r: seq<Label>)
    ensures r <= s && |r| <= PageSize
    ensures Distinct(s) ==> Distinct(r)
  {
    if |s| <= PageSize then s else s[..PageSize]
  }

  /** The requests that carry `ops` to one repository. */
  function Tag(repo: string, ops: seq<Op>): seq<Request>
  {
    seq(|ops|, i requires 0 <= i < |ops| => Request(repo, ops[i]))
  }

  /**
   * The remote service: the labels of every repository it hosts, and the log of
   * the mutating requests made so far with their outcomes.
   */
  class Remote {
    var repos: map<string, seq<Label>>
    var sent: seq<Request>
    var acked: seq<bool>
    /** The store before the first request of the log. */
    ghost const origin: map<string, seq<Label>>

    /**
     * Outcomes pair up with requests, the store is its origin with the log
     * replayed, and no repository has a name twice.
     */
    ghost predicate Valid()
      reads this
    {
      && |sent| == |acked|
      && repos == Replay(origin, sent, acked)
      && forall r :: r in repos ==> Distinct(repos[r])
    }

    constructor (repos: map<string, seq<Label>>)
      requires forall r :: r in repos ==> Distinct(repos[r])
      ensures Valid() && this.repos == repos && sent == [] && acked == []
    {
      this.repos := repos;
      origin := repos;
      sent := [];
      acked := [];
    }

    /**
     * One GET of a repository's labels, without a page parameter: the first
     * page only. It may fail, and fails for an unknown repository.
     */
    method List(repo: string) returns (ok: bool, labels: seq<Label>)
      requires Valid()
      ensures ok ==> repo in repos && labels == FirstPage(repos[repo])
      ensures ok && |repos[repo]| <= PageSize ==> labels == repos[repo]
      ensures !ok ==> labels == []
    {
      ok := *;
      if ok && repo in repos {
        labels := FirstPage(repos[repo]);
      } else {
        ok, labels := false, [];
      }
    }

    /**
     * POST, PATCH or DELETE of one label. It may fail; when it succeeds the
     * repository exists and the call was applicable, and the call took effect.
     */
    method Submit(repo: string, op: Op) returns (ok: bool)
      requires Valid()
      modifies this
      ensures Valid()
      ensures ok ==> repo in old(repos) && Applicable(old(repos)[repo], op)
      ensures repos == Deliver(old(repos), Request(repo, op), ok)
      ensures sent == old(sent) + [Request(repo, op)] && acked == old(acked) + [ok]
    {
      ok := *;
      if ok && repo in repos && Applicable(repos[repo], op) {
        ApplyKeepsDistinct(repos[repo], op);
        repos := repos[repo := ApplyOp(repos[repo], op)];
      } else {
        ok := false;
      }
      ReplaySnoc(origin, sent, acked, Request(repo, op), ok);
      sent := sent + [Request(repo, op)];
      acked := acked + [ok];
    }
  }

  // ---------------------------------------------------------------------------
  // Single calls

  lemma {:induction false} RecolorToMap(s: seq<Label>, n: string, c: string)
    ensures ToMap(Recolor(s, n, c)) == if n in ToMap(s) then ToMap(s)[n := c] else ToMap(s)
  {
    if s != [] {
      var init, last := s[..|s| - 1], s[|s| - 1];
      assert s == init + [last];
      RecolorToMap(init, n, c);
      var r := Recolor(s, n, c);
      assert r == Recolor(init, n, c) + [r[|s| - 1]];
    }
  }

  lemma RecolorNames(s: seq<Label>, n: string, c: string)
    ensures forall i :: 0 <= i < |s| ==> Recolor(s, n, c)[i].name == s[i].name
  {
  }

  /** A call the store accepts keeps the repository free of duplicate names. */
  lemma ApplyKeepsDistinct(s: seq<Label>, op: Op)
    requires Distinct(s) && Applicable(s, op)
    ensures Distinct(ApplyOp(s, op))
  {
    match op
    case Create(n, c) =>
      forall i | 0 <= i < |s| ensures s[i].name != n {
        assert s[i] in s;
      }
    case Update(n, c) =>
      RecolorNames(s, n, c);
    case Delete(n) =>
      WithoutDistinct(s, {n});
  }

  /** What one successful call does to the repository's dict. */
  lemma ApplyOpToMap(s: seq<Label>, op: Op)
    ensures op.Create? ==> ToMap(ApplyOp(s, op)) == ToMap(s)[op.name := op.color]
    ensures op.Update? ==> ToMap(ApplyOp(s, op)) == if op.name in ToMap(s) then ToMap(s)[op.name := op.color] else ToMap(s)
    ensures op.Delete? ==> ToMap(ApplyOp(s, op)) == ToMap(s) - {op.name}
  {
    match op
    case Create(n, c) =>
      assert (s + [Label(n, c)])[..|s|] == s;
    case Update(n, c) =>
      RecolorToMap(s, n, c);
    case Delete(n) =>
      ToMapWithout(s, {n});
  }

  // ---------------------------------------------------------------------------
  // Runs of calls

  lemma {:induction false} ApplyOpsAppend(s: seq<Label>, a: seq<Op>, b: seq<Op>)
    ensures ApplyOps(s, a + b) == ApplyOps(ApplyOps(s, a), b)
    ensures Accepts(s, a + b) <==> Accepts(s, a) && Accepts(ApplyOps(s, a), b)
  {
    if b == [] {
      assert a + b == a;
    } else {
      var init, last := b[..|b| - 1], b[|b| - 1];
      assert b == init + [last];
      assert (a + b)[..|a + b| - 1] == a + init;
      ApplyOpsAppend(s, a, init);
    }
  }

  lemma ApplyOpsOne(s: seq<Label>, op: Op)
    ensures ApplyOps(s, [op]) == ApplyOp(s, op)
    ensures Accepts(s, [op]) == Applicable(s, op)
  {
    assert [op][..0] == [];
  }

  /** One desired label's call, made after those of the labels before it. */
  lemma StepRun(current: seq<Label>, mid: seq<Label>, init: seq<Label>, last: Label)
    requires ToMap(mid) == ToMap(current) + ToMap(init)
    requires last.name !in Names(init)
    ensures var step := Step(last, ToMap(current));
      Accepts(mid, step) && ToMap(ApplyOps(mid, step)) == ToMap(current) + ToMap(init + [last])
  {
    var step := Step(last, ToMap(current));
    var cur, want := ToMap(current), ToMap(init);
    assert (init + [last])[..|init|] == init;
    assert ToMap(init + [last]) == want[last.name := last.color];
    assert (cur + want)[last.name := last.color] == cur + want[last.name := last.color];
    ToMapKeys(init);
    if step == [] {
      assert ApplyOps(mid, step) == mid;
      assert ToMap(mid)[last.name := last.color] == ToMap(mid);
    } else {
      var op := step[0];
      assert step == [op];
      ApplyOpsOne(mid, op);
      ApplyOpToMap(mid, op);
      ToMapKeys(mid);
      assert ToMap(ApplyOps(mid, step)) == ToMap(mid)[last.name := last.color];
    }
  }

  /**
   * The creates and updates decided against a listing, applied to that same
   * listing, are all accepted and leave its dict overridden by the pattern's.
   */
  lemma {:induction false} ReconcileRun(desired: seq<Label>, current: seq<Label>)
    requires Distinct(desired)
    ensures var ops := Reconcile(desired, ToMap(current));
      Accepts(current, ops) && ToMap(ApplyOps(current, ops)) == ToMap(current) + ToMap(desired)
  {
    if desired == [] {
      assert ToMap(current) + map[] == ToMap(current);
    } else {
      var init, last := desired[..|desired| - 1], desired[|desired| - 1];
      assert desired == init + [last];
      DistinctLast(desired);
      ReconcileRun(init, current);
      var head := Reconcile(init, ToMap(current));
      var step := Step(last, ToMap(current));
      assert Reconcile(desired, ToMap(current)) == head + step;
      ApplyOpsAppend(current, head, step);
      StepRun(current, ApplyOps(current, head), init, last);
    }
  }

  /** Deleting each label of `gone`, all present in `s`, is accepted and removes exactly their names. */
  lemma {:induction false} RemovalsRun(s: seq<Label>, gone: seq<Label>)
    requires Distinct(gone) && Names(gone) <= ToMap(s).Keys
    ensures Accepts(s, Removals(gone)) && ToMap(ApplyOps(s, Removals(gone))) == ToMap(s) - Names(gone)
  {
    if gone == [] {
      assert Removals(gone) == [];
      assert Names(gone) == {};
    } else {
      var init, last := gone[..|gone| - 1], gone[|gone| - 1];
      var d := Delete(last.name);
      assert gone == init + [last];
      assert Names(gone) == Names(init) + {last.name} by {
        NamesAppend(init, last);
      }
      var mid := ApplyOps(s, Removals(init));
      assert Accepts(s, Removals(init)) && ToMap(mid) == ToMap(s) - Names(init) by {
        DistinctLast(gone);
        RemovalsRun(s, init);
      }
      assert Applicable(mid, d) by {
        DistinctLast(gone);
        ToMapKeys(mid);
      }
      assert ToMap(ApplyOp(mid, d)) == ToMap(mid) - {last.name} by {
        ApplyOpToMap(mid, d);
      }
      assert Removals(gone) == Removals(init) + [d];
      ApplyOpsAppend(s, Removals(init), [d]);
      ApplyOpsOne(mid, d);
    }
  }

  /**
   * Convergence of update mode: when every call succeeds, the repository ends up
   * with its old labels overridden by the pattern, and the store accepts every call.
   */
  lemma UpdateConverges(desired: seq<Label>, current: seq<Label>)
    requires Distinct(desired)
    ensures var ops := Decide(desired, current, UpdateMode);
      Accepts(current, ops) && ToMap(ApplyOps(current, ops)) == ToMap(current) + ToMap(desired)
  {
    assert Decide(desired, current, UpdateMode) == Reconcile(desired, ToMap(current));
    ReconcileRun(desired, current);
  }

  /**
   * Convergence of replace mode: when every call succeeds, the repository ends up
   * with exactly the pattern's labels, and the store accepts every call.
   */
  lemma ReplaceConverges(desired: seq<Label>, current: seq<Label>)
    requires Distinct(desired) && Distinct(current)
    ensures var ops := Decide(desired, current, ReplaceMode);
      Accepts(current, ops) && ToMap(ApplyOps(current, ops)) == ToMap(desired)
  {
    var head := Reconcile(desired, ToMap(current));
    var rest := Without(current, Names(desired));
    var cur, want := ToMap(current), ToMap(desired);
    var mid := ApplyOps(current, head);
    assert Decide(desired, current, ReplaceMode) == head + Removals(rest);
    assert Accepts(current, head) && ToMap(mid) == cur + want by {
      ReconcileRun(desired, current);
    }
    assert Names(rest) == cur.Keys - want.Keys by {
      NamesWithout(current, Names(desired));
      ToMapKeys(current);
      ToMapKeys(desired);
    }
    assert Accepts(mid, Removals(rest)) && ToMap(ApplyOps(mid, Removals(rest))) == ToMap(mid) - Names(rest) by {
      WithoutDistinct(current, Names(desired));
      RemovalsRun(mid, rest);
    }
    ApplyOpsAppend(current, head, Removals(rest));
    assert (cur + want) - (cur.Keys - want.Keys) == want;
  }

  // ---------------------------------------------------------------------------
  // The log of the whole store

  lemma ReplaySnoc(repos: map<string, seq<Label>>, reqs: seq<Request>, oks: seq<bool>, q: Request, ok: bool)
    requires |reqs| == |oks|
    ensures Replay(repos, reqs + [q], oks + [ok]) == Deliver(Replay(repos, reqs, oks), q, ok)
  {
    assert (reqs + [q])[..|reqs|] == reqs;
    assert (oks + [ok])[..|oks|] == oks;
  }

  lemma {:induction false} ReplayAppend(repos: map<string, seq<Label>>, a: seq<Request>, x: seq<bool>, b: seq<Request>, y: seq<bool>)
    requires |a| == |x| && |b| == |y|
    ensures Replay(repos, a + b, x + y) == Replay(Replay(repos, a, x), b, y)
  {
    if b == [] {
      assert a + b == a && x + y == x;
    } else {
      var bi, bl := b[..|b| - 1], b[|b| - 1];
      var yi, yl := y[..|y| - 1], y[|y| - 1];
      assert b == bi + [bl] && y == yi + [yl];
      assert a + b == (a + bi) + [bl] && x + y == (x + yi) + [yl];
      ReplayAppend(repos, a, x, bi, yi);
      ReplaySnoc(repos, a + bi, x + yi, bl, yl);
    }
  }

  /** The store after a longer log is the store after its prefix with the rest replayed. */
  lemma ReplayResume(origin: map<string, seq<Label>>, sent0: seq<Request>, acked0: seq<bool>, sent: seq<Request>, acked: seq<bool>)
    requires |sent0| == |acked0| && |sent| == |acked| && |sent0| <= |sent|
    requires sent[..|sent0|] == sent0 && acked[..|acked0|] == acked0
    ensures Replay(origin, sent, acked) == Replay(Replay(origin, sent0, acked0), sent[|sent0|..], acked[|acked0|..])
  {
    assert sent == sent0 + sent[|sent0|..];
    assert acked == acked0 + acked[|acked0|..];
    ReplayAppend(origin, sent0, acked0, sent[|sent0|..], acked[|acked0|..]);
  }

  /**
   * When every request of a pass to one repository succeeded, the store holds
   * that repository's old list with every call applied, and nothing else changed.
   */
  lemma {:induction false} ReplayAllAcked(repos: map<string, seq<Label>>, repo: string, ops: seq<Op>, oks: seq<bool>)
    requires repo in repos && |oks| == |ops| && forall k :: 0 <= k < |oks| ==> oks[k]
    ensures Replay(repos, Tag(repo, ops), oks) == repos[repo := ApplyOps(repos[repo], ops)]
  {
    if ops == [] {
      assert repos[repo := repos[repo]] == repos;
    } else {
      var init, last := ops[..|ops| - 1], ops[|ops| - 1];
      var oi := oks[..|oks| - 1];
      assert Tag(repo, ops) == Tag(repo, init) + [Request(repo, last)];
      assert oks == oi + [oks[|oks| - 1]];
      ReplayAllAcked(repos, repo, init, oi);
      ReplaySnoc(repos, Tag(repo, init), oi, Request(repo, last), oks[|oks| - 1]);
    }
  }
}
