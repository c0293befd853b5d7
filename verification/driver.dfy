/**
 * The per-repository passes `update_labels` and `replace_labels`, and the `run`
 * command that makes one pass per configured repository. Each pass lists the
 * repository's labels once and then issues its calls one by one. A call that
 * fails with an error status is reported and otherwise ignored, so such a
 * failure stops nothing; every call here returns (an exception, which would end
 * the run, is not modelled).
 */
module Driver {
  import opened LabelSets
  import opened Reconciliation
  import opened Store

  /**
   * `get_labels`: the first page of the repository's labels, or an empty dict
   * when the listing fails.
   */
  method GetLabels(remote: Remote, repo: string) returns (labels: seq<Label>)
    requires remote.Valid()
    ensures labels == [] || (repo in remote.repos && labels == FirstPage(remote.repos[repo]))
    ensures Distinct(labels)
  {
    var ok, listed := remote.List(repo);
    if ok {
      labels := listed;
    } else {
      labels := [];
    }
  }

  /**
   * The body of the loop over the pattern in both passes, with `create_label`
   * and `update_label`: for one desired label, a create when its name is
   * missing, an update when its colour differs, and nothing when it already
   * matches. The outcome of a call is only reported.
   */
  method IssueStep(remote: Remote, repo: string, l: Label, current: map<string, string>)
    requires remote.Valid()
    modifies remote
    ensures remote.Valid()
    ensures remote.sent == old(remote.sent) + Tag(repo, Step(l, current))
    ensures remote.acked[..|old(remote.acked)|] == old(remote.acked)
  {
    if l.name in current {
      if current[l.name] != l.color {
        var ok := remote.Submit(repo, Update(l.name, l.color));
      }
    } else {
      var ok := remote.Submit(repo, Create(l.name, l.color));
    }
  }

  /** Issuing more calls extends the log by their requests. */
  lemma LogExtend(log: seq<Request>, repo: string, ops: seq<Op>, more: seq<Op>)
    ensures log + Tag(repo, ops + more) == (log + Tag(repo, ops)) + Tag(repo, more)
  {
    assert Tag(repo, ops + more) == Tag(repo, ops) + Tag(repo, more);
  }

  lemma ReconcilePrefix(pattern: seq<Label>, i: nat, current: map<string, string>)
    requires i < |pattern|
    ensures Reconcile(pattern[..i + 1], current) == Reconcile(pattern[..i], current) + Step(pattern[i], current)
  {
    assert pattern[..i + 1][..i] == pattern[..i];
  }

  /**
   * The log of one pass to `repo`, replayed on the store as it was before the
   * pass: when every call of the pass succeeded, the repository holds its old
   * list with every call applied.
   */
  lemma PassReplay(origin: map<string, seq<Label>>, sent0: seq<Request>, acked0: seq<bool>,
                   sent: seq<Request>, acked: seq<bool>, repo: string, ops: seq<Op>)
    requires |sent0| == |acked0| && |sent| == |acked|
    requires sent == sent0 + Tag(repo, ops) && acked[..|acked0|] == acked0
    ensures Replay(origin, sent, acked) == Replay(Replay(origin, sent0, acked0), sent[|sent0|..], acked[|acked0|..])
    ensures var before := Replay(origin, sent0, acked0);
      repo in before && (forall k :: |acked0| <= k < |acked| ==> acked[k]) ==>
        Replay(origin, sent, acked)[repo] == ApplyOps(before[repo], ops)
  {
    ReplayResume(origin, sent0, acked0, sent, acked);
    var before := Replay(origin, sent0, acked0);
    assert sent[|sent0|..] == Tag(repo, ops);
    if repo in before && (forall k :: |acked0| <= k < |acked| ==> acked[k]) {
      ReplayAllAcked(before, repo, ops, acked[|acked0|..]);
    }
  }

  /**
   * `update_labels`: create every desired label the repository lacks and
   * recolour every one whose colour differs; never delete. `snapshot` is what
   * the listing returned.
   */
  method UpdateLabels(remote: Remote, pattern: seq<Label>, repo: string) returns (ghost snapshot: seq<Label>)
    requires remote.Valid() && Distinct(pattern)
    modifies remote
    ensures remote.Valid() && Distinct(snapshot)
    ensures snapshot == [] || (repo in old(remote.repos) && snapshot == FirstPage(old(remote.repos)[repo]))
    ensures remote.sent == old(remote.sent) + Tag(repo, Decide(pattern, snapshot, UpdateMode))
    ensures remote.acked[..|old(remote.acked)|] == old(remote.acked)
    ensures remote.repos == Replay(old(remote.repos), remote.sent[|old(remote.sent)|..], remote.acked[|old(remote.acked)|..])
    ensures repo in old(remote.repos) && snapshot == old(remote.repos)[repo] &&
            (forall k :: |old(remote.acked)| <= k < |remote.acked| ==> remote.acked[k]) ==>
              ToMap(remote.repos[repo]) == ToMap(snapshot) + ToMap(pattern)
  {
    var labels := GetLabels(remote, repo);
    snapshot := labels;
    var current := ToMap(labels);
    ghost var sent0, acked0, start := remote.sent, remote.acked, remote.repos;
    assert start == Replay(remote.origin, sent0, acked0);
    for i := 0 to |pattern|
      invariant remote.Valid()
      invariant remote.sent == sent0 + Tag(repo, Reconcile(pattern[..i], current))
      invariant remote.acked[..|acked0|] == acked0
    {
      ReconcilePrefix(pattern, i, current);
      LogExtend(sent0, repo, Reconcile(pattern[..i], current), Step(pattern[i], current));
      ghost var acked1 := remote.acked;
      IssueStep(remote, repo, pattern[i], current);
      PrefixOfPrefix(acked0, acked1, remote.acked);
    }
    assert pattern[..|pattern|] == pattern;
    ghost var ops := Decide(pattern, snapshot, UpdateMode);
    PassReplay(remote.origin, sent0, acked0, remote.sent, remote.acked, repo, ops);
    if repo in old(remote.repos) && snapshot == old(remote.repos)[repo] {
      UpdateConverges(pattern, snapshot);
    }
  }

  /**
   * `replace_labels`: as `update_labels`, then delete every listed label the
   * pattern does not name. The listing is copied into a local dict from which
   * each desired name is removed as it is handled; what remains is deleted.
   */
  method ReplaceLabels(remote: Remote, pattern: seq<Label>, repo: string) returns (ghost snapshot: seq<Label>)
    requires remote.Valid() && Distinct(pattern)
    modifies remote
    ensures remote.Valid() && Distinct(snapshot)
    ensures snapshot == [] || (repo in old(remote.repos) && snapshot == FirstPage(old(remote.repos)[repo]))
    ensures remote.sent == old(remote.sent) + Tag(repo, Decide(pattern, snapshot, ReplaceMode))
    ensures remote.acked[..|old(remote.acked)|] == old(remote.acked)
    ensures remote.repos == Replay(old(remote.repos), remote.sent[|old(remote.sent)|..], remote.acked[|old(remote.acked)|..])
    ensures repo in old(remote.repos) && snapshot == old(remote.repos)[repo] &&
            (forall k :: |old(remote.acked)| <= k < |remote.acked| ==> remote.acked[k]) ==>
              ToMap(remote.repos[repo]) == ToMap(pattern)
  {
    var labels := GetLabels(remote, repo);
    snapshot := labels;
    ghost var listed := ToMap(snapshot);
    ghost var sent0, acked0 := remote.sent, remote.acked;
    assert Names(pattern[..0]) == {};
    WithoutNothing(snapshot);
    for i := 0 to |pattern|
      invariant remote.Valid()
      invariant labels == Without(snapshot, Names(pattern[..i]))
      invariant remote.sent == sent0 + Tag(repo, Reconcile(pattern[..i], listed))
      invariant remote.acked[..|acked0|] == acked0
    {
      var key := pattern[i].name;
      var current := ToMap(labels);
      ReconcilePrefix(pattern, i, listed);
      LocalCopyStep(snapshot, pattern, i);
      LogExtend(sent0, repo, Reconcile(pattern[..i], listed), Step(pattern[i], listed));
      ghost var acked1 := remote.acked;
      IssueStep(remote, repo, pattern[i], current);
      PrefixOfPrefix(acked0, acked1, remote.acked);
      if key in current {
        labels := Without(labels, {key});
      }
    }
    assert pattern[..|pattern|] == pattern;
    ghost var head := Reconcile(pattern, listed);
    assert head + Removals(labels[..0]) == head;
    for j := 0 to |labels|
      invariant remote.Valid()
      invariant remote.sent == sent0 + Tag(repo, head + Removals(labels[..j]))
      invariant remote.acked[..|acked0|] == acked0
    {
      DeleteLog(sent0, repo, head, labels, j);
      ghost var acked1 := remote.acked;
      var ok := remote.Submit(repo, Delete(labels[j].name));
      PrefixOfPrefix(acked0, acked1, remote.acked);
    }
    assert labels[..|labels|] == labels;
    ghost var ops := Decide(pattern, snapshot, ReplaceMode);
    PassReplay(remote.origin, sent0, acked0, remote.sent, remote.acked, repo, ops);
    if repo in old(remote.repos) && snapshot == old(remote.repos)[repo] {
      ReplaceConverges(pattern, snapshot);
    }
  }

  /** One more `remove_labels` call extends the log of a replace pass by one delete. */
  lemma DeleteLog(log: seq<Request>, repo: string, head: seq<Op>, labels: seq<Label>, j: nat)
    requires j < |labels|
    ensures log + Tag(repo, head + Removals(labels[..j + 1]))
         == (log + Tag(repo, head + Removals(labels[..j]))) + [Request(repo, Delete(labels[j].name))]
  {
    var d := Delete(labels[j].name);
    assert Removals(labels[..j + 1]) == Removals(labels[..j]) + [d];
    assert head + Removals(labels[..j + 1]) == (head + Removals(labels[..j])) + [d];
    LogExtend(log, repo, head + Removals(labels[..j]), [d]);
  }

  /** Dropping the same head from a sequence and from an extension of it keeps the prefix. */
  lemma SliceOfPrefix<T>(a: seq<T>, b: seq<T>, n: nat)
    requires n <= |a| <= |b| && b[..|a|] == a
    ensures b[n..][..|a| - n] == a[n..]
  {
    assert forall j :: 0 <= j < |a| - n ==> b[n..][j] == b[n + j] == a[n + j];
  }

  /** A prefix of a prefix is a prefix. */
  lemma PrefixOfPrefix<T>(a: seq<T>, b: seq<T>, c: seq<T>)
    requires |a| <= |b| && b[..|a|] == a
    requires |b| <= |c| && c[..|b|] == b
    ensures c[..|a|] == a
  {
    assert c[..|a|] == c[..|b|][..|a|];
  }

  /**
   * The local copy in `replace_labels`, once the first `i` desired names are
   * removed, still agrees with the listing on the next desired name, and
   * removing that name (when present) gives the copy for `i + 1`.
   */
  lemma LocalCopyStep(snapshot: seq<Label>, pattern: seq<Label>, i: nat)
    requires Distinct(pattern) && i < |pattern|
    ensures var copy, key := Without(snapshot, Names(pattern[..i])), pattern[i].name;
      && (key in ToMap(copy) <==> key in ToMap(snapshot))
      && (key in ToMap(copy) ==> ToMap(copy)[key] == ToMap(snapshot)[key])
      && Step(pattern[i], ToMap(copy)) == Step(pattern[i], ToMap(snapshot))
      && Without(snapshot, Names(pattern[..i + 1])) == if key in ToMap(copy) then Without(copy, {key}) else copy
  {
    var key := pattern[i].name;
    var copy := Without(snapshot, Names(pattern[..i]));
    assert pattern[..i + 1] == pattern[..i] + [pattern[i]];
    assert pattern[..i + 1][..i] == pattern[..i];
    DistinctLast(pattern[..i + 1]);
    NamesAppend(pattern[..i], pattern[i]);
    WithoutWithout(snapshot, Names(pattern[..i]), key);
    ToMapWithout(snapshot, Names(pattern[..i]));
    if key !in ToMap(copy) {
      WithoutNothingNamed(copy, key);
    }
  }

  /** Removing a name the dict does not hold leaves the dict's list as it is. */
  lemma WithoutNothingNamed(s: seq<Label>, n: string)
    requires n !in ToMap(s)
    ensures Without(s, {n}) == s
  {
    ToMapKeys(s);
    assert Without(s, {n}) == Without(s, {}) by {
      WithoutSame(s, {n}, {});
    }
    WithoutNothing(s);
  }

  lemma {:induction false} WithoutSame(s: seq<Label>, a: set<string>, b: set<string>)
    requires forall l :: l in s ==> (l.name in a <==> l.name in b)
    ensures Without(s, a) == Without(s, b)
  {
    if s != [] {
      var init, last := s[..|s| - 1], s[|s| - 1];
      assert s == init + [last];
      WithoutSame(init, a, b);
    }
  }

  /** Every listing is a dict. */
  predicate AllDistinct(snapshots: seq<seq<Label>>)
  {
    forall i :: 0 <= i < |snapshots| ==> Distinct(snapshots[i])
  }

  /**
   * A listing taken after the first `n` requests of the log: one unpaged
   * listing of `repo` in the store as those requests left it, or nothing when
   * the listing failed.
   */
  ghost predicate SawStore(start: map<string, seq<Label>>, log: seq<Request>, oks: seq<bool>, n: nat,
                           repo: string, snapshot: seq<Label>)
  {
    && n <= |log| == |oks|
    && (snapshot == [] ||
        (repo in Replay(start, log[..n], oks[..n]) && snapshot == FirstPage(Replay(start, log[..n], oks[..n])[repo])))
  }

  /** A later log still shows what the store held after its first `n` requests. */
  lemma SawStoreExtend(start: map<string, seq<Label>>, log: seq<Request>, oks: seq<bool>,
                       log2: seq<Request>, oks2: seq<bool>, n: nat, repo: string, snapshot: seq<Label>)
    requires SawStore(start, log, oks, n, repo, snapshot)
    requires |log| <= |log2| == |oks2| && log2[..|log|] == log && oks2[..|oks|] == oks
    ensures SawStore(start, log2, oks2, n, repo, snapshot)
  {
    assert log2[..n] == log[..n];
    assert oks2[..n] == oks[..n];
  }

  /**
   * Each pass of a run decided against what the store held when that pass
   * began: the store after the requests of the earlier passes.
   */
  ghost predicate Listed(start: map<string, seq<Label>>, log: seq<Request>, oks: seq<bool>,
                         repos: seq<string>, snapshots: seq<seq<Label>>, desired: seq<Label>, mode: Mode)
    decreases |snapshots|
  {
    && |snapshots| <= |repos|
    && (snapshots == [] ||
        var k := |snapshots| - 1;
        && Listed(start, log, oks, repos, snapshots[..k], desired, mode)
        && SawStore(start, log, oks, |Schedule(repos[..k], snapshots[..k], desired, mode)|, repos[k], snapshots[k]))
  }

  /** Where pass `k` of a run begins in the run's log. */
  function Offset(repos: seq<string>, snapshots: seq<seq<Label>>, desired: seq<Label>, mode: Mode, k: nat): nat
    requires k <= |snapshots| <= |repos|
  {
    |Schedule(repos[..k], snapshots[..k], desired, mode)|
  }

  /**
   * What `Listed` means pass by pass: the listing of pass `k` is empty, or the
   * first page of `repos[k]` in the store after the requests before pass `k`.
   */
  lemma {:induction false} ListedEach(start: map<string, seq<Label>>, log: seq<Request>, oks: seq<bool>,
                                      repos: seq<string>, snapshots: seq<seq<Label>>, desired: seq<Label>, mode: Mode, k: nat)
    requires Listed(start, log, oks, repos, snapshots, desired, mode)
    requires k < |snapshots|
    ensures SawStore(start, log, oks, Offset(repos, snapshots, desired, mode, k), repos[k], snapshots[k])
    decreases |snapshots|
  {
    var last := |snapshots| - 1;
    if k < last {
      var front := snapshots[..last];
      assert front[..k] == snapshots[..k] && front[k] == snapshots[k];
      ListedEach(start, log, oks, repos, front, desired, mode, k);
    }
  }

  /** A later log still shows every listing of a run. */
  lemma {:induction false} ListedExtend(start: map<string, seq<Label>>, log: seq<Request>, oks: seq<bool>,
                                        log2: seq<Request>, oks2: seq<bool>,
                                        repos: seq<string>, snapshots: seq<seq<Label>>, desired: seq<Label>, mode: Mode)
    requires Listed(start, log, oks, repos, snapshots, desired, mode)
    requires |log| == |oks| <= |log2| == |oks2| && log2[..|log|] == log && oks2[..|oks|] == oks
    ensures Listed(start, log2, oks2, repos, snapshots, desired, mode)
    decreases |snapshots|
  {
    if snapshots != [] {
      var k := |snapshots| - 1;
      ListedExtend(start, log, oks, log2, oks2, repos, snapshots[..k], desired, mode);
      SawStoreExtend(start, log, oks, log2, oks2, |Schedule(repos[..k], snapshots[..k], desired, mode)|, repos[k], snapshots[k]);
    }
  }

  /** The listing of one more pass, made after the log so far, keeps the run listed. */
  lemma ListedSnoc(start: map<string, seq<Label>>, log: seq<Request>, oks: seq<bool>,
                   log2: seq<Request>, oks2: seq<bool>,
                   repos: seq<string>, snapshots: seq<seq<Label>>, snapshot: seq<Label>, desired: seq<Label>, mode: Mode)
    requires |snapshots| < |repos|
    requires Listed(start, log, oks, repos, snapshots, desired, mode)
    requires log == Schedule(repos[..|snapshots|], snapshots, desired, mode)
    requires SawStore(start, log, oks, |log|, repos[|snapshots|], snapshot)
    requires |log| <= |log2| == |oks2| && log2[..|log|] == log && oks2[..|oks|] == oks
    ensures Listed(start, log2, oks2, repos, snapshots + [snapshot], desired, mode)
  {
    var snaps := snapshots + [snapshot];
    assert snaps[..|snapshots|] == snapshots;
    ListedExtend(start, log, oks, log2, oks2, repos, snapshots, desired, mode);
    SawStoreExtend(start, log, oks, log2, oks2, |log|, repos[|snapshots|], snapshot);
  }

  /** The requests of a whole run: each repository's pass, in the order of `repos`. */
  function Schedule(repos: seq<string>, snapshots: seq<seq<Label>>, desired: seq<Label>, mode: Mode): seq<Request>
    requires |repos| == |snapshots|
  {
    if repos == [] then []
    else
      Schedule(repos[..|repos| - 1], snapshots[..|snapshots| - 1], desired, mode)
        + Tag(repos[|repos| - 1], Decide(desired, snapshots[|snapshots| - 1], mode))
  }

  lemma ScheduleSnoc(repos: seq<string>, snapshots: seq<seq<Label>>, snapshot: seq<Label>, desired: seq<Label>, mode: Mode)
    requires |snapshots| < |repos|
    ensures var i := |snapshots|;
      Schedule(repos[..i + 1], snapshots + [snapshot], desired, mode)
        == Schedule(repos[..i], snapshots, desired, mode) + Tag(repos[i], Decide(desired, snapshot, mode))
  {
    var i := |snapshots|;
    assert repos[..i + 1][..i] == repos[..i];
    assert (snapshots + [snapshot])[..i] == snapshots;
  }

  /** One more pass extends the log of a run by that pass's requests. */
  lemma PassLog(log: seq<Request>, repos: seq<string>, snapshots: seq<seq<Label>>, snapshot: seq<Label>,
                desired: seq<Label>, mode: Mode)
    requires |snapshots| < |repos|
    ensures var i := |snapshots|;
      log + Schedule(repos[..i + 1], snapshots + [snapshot], desired, mode)
        == (log + Schedule(repos[..i], snapshots, desired, mode)) + Tag(repos[i], Decide(desired, snapshot, mode))
  {
    ScheduleSnoc(repos, snapshots, snapshot, desired, mode);
  }

  /**
   * A pass that lists after the log so far saw the store that the run's part of
   * the log left behind.
   */
  lemma ListingResumes(origin: map<string, seq<Label>>, sent0: seq<Request>, acked0: seq<bool>,
                       sent1: seq<Request>, acked1: seq<bool>, repo: string, snapshot: seq<Label>)
    requires |sent0| == |acked0| <= |sent1| == |acked1|
    requires sent1[..|sent0|] == sent0 && acked1[..|acked0|] == acked0
    requires snapshot == [] ||
             (repo in Replay(origin, sent1, acked1) && snapshot == FirstPage(Replay(origin, sent1, acked1)[repo]))
    ensures SawStore(Replay(origin, sent0, acked0), sent1[|sent0|..], acked1[|acked0|..], |sent1| - |sent0|, repo, snapshot)
  {
    ReplayResume(origin, sent0, acked0, sent1, acked1);
    var log, oks := sent1[|sent0|..], acked1[|acked0|..];
    assert log[..|log|] == log && oks[..|oks|] == oks;
  }

  /**
   * One pass of a run, on values: the pass listed the store as the log so far
   * left it and appended its own requests, so every pass of the longer log is
   * still tied to the store it listed.
   */
  lemma RunStep(start: map<string, seq<Label>>, sent0: seq<Request>, acked0: seq<bool>,
                sent1: seq<Request>, acked1: seq<bool>, sent2: seq<Request>, acked2: seq<bool>,
                repos: seq<string>, snapshots: seq<seq<Label>>, snapshot: seq<Label>, desired: seq<Label>, mode: Mode)
    requires |snapshots| < |repos|
    requires |sent0| == |acked0| && |sent1| == |acked1| <= |sent2| == |acked2|
    requires sent1 == sent0 + Schedule(repos[..|snapshots|], snapshots, desired, mode)
    requires acked1[..|acked0|] == acked0
    requires sent2[..|sent1|] == sent1 && acked2[..|acked1|] == acked1
    requires Listed(start, sent1[|sent0|..], acked1[|acked0|..], repos, snapshots, desired, mode)
    requires SawStore(start, sent1[|sent0|..], acked1[|acked0|..], |sent1| - |sent0|, repos[|snapshots|], snapshot)
    ensures Listed(start, sent2[|sent0|..], acked2[|acked0|..], repos, snapshots + [snapshot], desired, mode)
  {
    var i := |snapshots|;
    var log, oks, log2, oks2 := sent1[|sent0|..], acked1[|acked0|..], sent2[|sent0|..], acked2[|acked0|..];
    assert log == Schedule(repos[..i], snapshots, desired, mode);
    SliceOfPrefix(sent1, sent2, |sent0|);
    SliceOfPrefix(acked1, acked2, |acked0|);
    ListedSnoc(start, log, oks, log2, oks2, repos, snapshots, snapshot, desired, mode);
  }

  /**
   * `run`: one pass per repository, in order, under the chosen mode. Every pass
   * is made in full whatever error status earlier calls and listings returned,
   * and each pass lists the store as the earlier passes left it.
   */
  method Run(remote: Remote, mode: Mode, repos: seq<string>, labels: seq<Label>) returns (ghost snapshots: seq<seq<Label>>)
    requires remote.Valid() && Distinct(labels)
    modifies remote
    ensures remote.Valid()
    ensures |snapshots| == |repos| && AllDistinct(snapshots)
    ensures remote.sent == old(remote.sent) + Schedule(repos, snapshots, labels, mode)
    ensures remote.acked[..|old(remote.acked)|] == old(remote.acked)
    ensures remote.repos == Replay(old(remote.repos), remote.sent[|old(remote.sent)|..], remote.acked[|old(remote.acked)|..])
    ensures Listed(old(remote.repos), remote.sent[|old(remote.sent)|..], remote.acked[|old(remote.acked)|..], repos, snapshots, labels, mode)
    ensures forall k :: 0 <= k < |repos| ==>
      SawStore(old(remote.repos), remote.sent[|old(remote.sent)|..], remote.acked[|old(remote.acked)|..],
               Offset(repos, snapshots, labels, mode, k), repos[k], snapshots[k])
  {
    snapshots := [];
    ghost var sent0, acked0, start := remote.sent, remote.acked, remote.repos;
    assert start == Replay(remote.origin, sent0, acked0);
    for i := 0 to |repos|
      invariant remote.Valid()
      invariant |snapshots| == i && AllDistinct(snapshots)
      invariant remote.sent == sent0 + Schedule(repos[..i], snapshots, labels, mode)
      invariant remote.acked[..|acked0|] == acked0
      invariant Listed(start, remote.sent[|sent0|..], remote.acked[|acked0|..], repos, snapshots, labels, mode)
    {
      ghost var sent1, acked1 := remote.sent, remote.acked;
      ghost var snapshot;
      if mode == UpdateMode {
        snapshot := UpdateLabels(remote, labels, repos[i]);
      } else {
        snapshot := ReplaceLabels(remote, labels, repos[i]);
      }
      PassLog(sent0, repos, snapshots, snapshot, labels, mode);
      PrefixOfPrefix(acked0, acked1, remote.acked);
      ListingResumes(remote.origin, sent0, acked0, sent1, acked1, repos[i], snapshot);
      assert remote.sent[..|sent1|] == sent1;
      RunStep(start, sent0, acked0, sent1, acked1, remote.sent, remote.acked, repos, snapshots, snapshot, labels, mode);
      snapshots := snapshots + [snapshot];
    }
    assert repos[..|repos|] == repos;
    ReplayResume(remote.origin, sent0, acked0, remote.sent, remote.acked);
    forall k | 0 <= k < |repos|
      ensures SawStore(start, remote.sent[|sent0|..], remote.acked[|acked0|..],
                       Offset(repos, snapshots, labels, mode, k), repos[k], snapshots[k])
    {
      ListedEach(start, remote.sent[|sent0|..], remote.acked[|acked0|..], repos, snapshots, labels, mode, k);
    }
  }
}
