/**
 * The decision at the heart of `update_labels` and `replace_labels`: given the
 * desired labels (the pattern) and the labels a repository currently has, which
 * create, update and delete calls are issued, and in which order.
 */
module Reconciliation {
  import opened LabelSets

  /** The two policies of the `run` command. */
  datatype Mode = UpdateMode | ReplaceMode

  /** One call against the remote label store. */
  datatype Op = Create(name: string, color: string) | Update(name: string, color: string) | Delete(name: string)

  /** What one desired label calls for, given the repository's current dict. */
  function Step(l: Label, current: map<string, string>): seq<Op>
  {
    if l.name !in current then [Create(l.name, l.color)]
    else if current[l.name] == l.color then []
    else [Update(l.name, l.color)]
  }

  /**
   * The creates and updates, in the iteration order of the pattern. Only
   * names of the pattern are touched, and nothing is ever deleted.
   */
  function Reconcile(desired: seq<Label>, current: map<string, string>): seq<Op>
  {
    if desired == [] then []
    else Reconcile(desired[..|desired| - 1], current) + Step(desired[|desired| - 1], current)
  }

  /** One delete per label, in the order of the labels. */
  function Removals(s: seq<Label>): seq<Op>
  {
    seq(|s|, i requires 0 <= i < |s| => Delete(s[i].name))
  }

  /** The deletes of replace mode: every current label the pattern does not name, in current order. */
  function Leftovers(current: seq<Label>, desired: seq<Label>): seq<Op>
  {
    Removals(Without(current, Names(desired)))
  }

  /** The calls one repository pass issues, in order. */
  function Decide(desired: seq<Label>, current: seq<Label>, mode: Mode): seq<Op>
  {
    Reconcile(desired, ToMap(current)) + (if mode == ReplaceMode then Leftovers(current, desired) else [])
  }

  // ---------------------------------------------------------------------------
  // What is created, updated and deleted

  /** Creates and updates only touch names of the pattern; they never delete. */
  lemma {:induction false} ReconcileTouchesPattern(desired: seq<Label>, current: map<string, string>)
    ensures forall op :: op in Reconcile(desired, current) ==> !op.Delete? && op.name in Names(desired)
  {
    if desired != [] {
      var init, last := desired[..|desired| - 1], desired[|desired| - 1];
      assert desired == init + [last];
      NamesAppend(init, last);
      ReconcileTouchesPattern(init, current);
    }
  }

  /** The creates and updates of a pattern, label by label. */
  lemma {:induction false} ReconcileContents(desired: seq<Label>, current: map<string, string>)
    ensures forall n, c :: Create(n, c) in Reconcile(desired, current) <==> Label(n, c) in desired && n !in current
    ensures forall n, c :: Update(n, c) in Reconcile(desired, current) <==>
      Label(n, c) in desired && n in current && current[n] != c
  {
    if desired != [] {
      var init, last := desired[..|desired| - 1], desired[|desired| - 1];
      assert desired == init + [last];
      ReconcileContents(init, current);
    }
  }

  lemma RemovalsContents(s: seq<Label>)
    ensures forall op :: op in Removals(s) ==> op.Delete?
    ensures forall n :: Delete(n) in Removals(s) <==> n in Names(s)
  {
    forall n | n in Names(s) ensures Delete(n) in Removals(s) {
      var l :| l in s && l.name == n;
      var i :| 0 <= i < |s| && s[i] == l;
      assert Removals(s)[i] == Delete(n);
    }
  }

  /** The deletes of replace mode name exactly the current labels the pattern lacks. */
  lemma LeftoversContents(current: seq<Label>, desired: seq<Label>)
    ensures forall op :: op in Leftovers(current, desired) ==> op.Delete?
    ensures forall n :: Delete(n) in Leftovers(current, desired) <==> n in Names(current) && n !in Names(desired)
  {
    var rest := Without(current, Names(desired));
    RemovalsContents(rest);
    InWithout(current, Names(desired));
    forall n ensures n in Names(rest) <==> n in Names(current) && n !in Names(desired) {
      if n in Names(current) && n !in Names(desired) {
        var l :| l in current && l.name == n;
        assert l in rest;
      }
    }
  }

  /**
   * For each desired label whose name the repository lacks, a create with the
   * desired colour; in either mode.
   */
  lemma CreatesExactly(desired: seq<Label>, current: seq<Label>, mode: Mode)
    ensures forall n, c :: Create(n, c) in Decide(desired, current, mode) <==>
      Label(n, c) in desired && n !in Names(current)
  {
    ReconcileContents(desired, ToMap(current));
    LeftoversContents(current, desired);
    ToMapKeys(current);
  }

  /**
   * For each desired label whose name the repository has, an update with the
   * desired colour exactly when the colours differ as strings; in either mode.
   */
  lemma UpdatesExactly(desired: seq<Label>, current: seq<Label>, mode: Mode)
    ensures forall n, c :: Update(n, c) in Decide(desired, current, mode) <==>
      Label(n, c) in desired && n in ToMap(current) && ToMap(current)[n] != c
  {
    ReconcileContents(desired, ToMap(current));
    LeftoversContents(current, desired);
  }

  /**
   * Update mode never deletes; replace mode deletes exactly the names of
   * `current` that the pattern does not have.
   */
  lemma DeletesExactly(desired: seq<Label>, current: seq<Label>, mode: Mode)
    ensures forall n :: Delete(n) in Decide(desired, current, mode) <==>
      mode == ReplaceMode && n in Names(current) && n !in Names(desired)
  {
    ReconcileTouchesPattern(desired, ToMap(current));
    LeftoversContents(current, desired);
  }

  // ---------------------------------------------------------------------------
  // Order

  /** Every delete comes after every create and update. */
  lemma DeletesLast(desired: seq<Label>, current: seq<Label>, mode: Mode)
    ensures var ops := Decide(desired, current, mode);
      forall i, j :: 0 <= i < j < |ops| && ops[i].Delete? ==> ops[j].Delete?
  {
    var head := Reconcile(desired, ToMap(current));
    var tail := if mode == ReplaceMode then Leftovers(current, desired) else [];
    var ops := head + tail;
    ReconcileTouchesPattern(desired, ToMap(current));
    LeftoversContents(current, desired);
    forall i, j | 0 <= i < j < |ops| && ops[i].Delete? ensures ops[j].Delete? {
      assert ops[j] in tail;
    }
  }

  /**
   * Creates and updates follow the pattern's iteration order: the calls for an
   * earlier part of the pattern all come before those for a later part.
   */
  lemma {:induction false} ReconcileAppend(a: seq<Label>, b: seq<Label>, current: map<string, string>)
    ensures Reconcile(a + b, current) == Reconcile(a, current) + Reconcile(b, current)
  {
    if b == [] {
      assert a + b == a;
    } else {
      var init, last := b[..|b| - 1], b[|b| - 1];
      var x, y, z := Reconcile(a, current), Reconcile(init, current), Step(last, current);
      assert Reconcile(a + b, current) == Reconcile(a + init, current) + z by {
        assert a + b == (a + init) + [last];
        ReconcileSnoc(a + init, last, current);
      }
      assert Reconcile(b, current) == y + z by {
        assert b == init + [last];
        ReconcileSnoc(init, last, current);
      }
      ReconcileAppend(a, init, current);
      assert (x + y) + z == x + (y + z);
    }
  }

  lemma ReconcileSnoc(s: seq<Label>, l: Label, current: map<string, string>)
    ensures Reconcile(s + [l], current) == Reconcile(s, current) + Step(l, current)
  {
    assert (s + [l])[..|s|] == s;
  }

  /** Deletes follow the order in which the repository listed its labels. */
  lemma LeftoversAppend(a: seq<Label>, b: seq<Label>, desired: seq<Label>)
    ensures Leftovers(a + b, desired) == Leftovers(a, desired) + Leftovers(b, desired)
  {
    WithoutAppend(a, b, Names(desired));
  }

  // ---------------------------------------------------------------------------
  // At most one call per name

  /** No two calls in a sequence name the same label. */
  predicate OnePerName(ops: seq<Op>)
  {
    forall i, j :: 0 <= i < j < |ops| ==> ops[i].name != ops[j].name
  }

  lemma {:induction false} ReconcileOnePerName(desired: seq<Label>, current: map<string, string>)
    requires Distinct(desired)
    ensures OnePerName(Reconcile(desired, current))
  {
    if desired != [] {
      var init, last := desired[..|desired| - 1], desired[|desired| - 1];
      assert desired == init + [last];
      ReconcileOnePerName(init, current);
      ReconcileTouchesPattern(init, current);
      var head := Reconcile(init, current);
      forall i | 0 <= i < |head| ensures head[i].name != last.name {
        assert head[i] in head;
        var l :| l in init && l.name == head[i].name;
        var k :| 0 <= k < |init| && init[k] == l;
        assert desired[k] == l;
      }
    }
  }

  lemma RemovalsOnePerName(s: seq<Label>)
    requires Distinct(s)
    ensures OnePerName(Removals(s))
  {
  }

  /**
   * Each label name gets at most one call per repository pass, when the pattern
   * and the listing each name a label once (both are dicts in the source).
   */
  lemma OneCallPerName(desired: seq<Label>, current: seq<Label>, mode: Mode)
    requires Distinct(desired) && Distinct(current)
    ensures OnePerName(Decide(desired, current, mode))
  {
    var head := Reconcile(desired, ToMap(current));
    ReconcileOnePerName(desired, ToMap(current));
    ReconcileTouchesPattern(desired, ToMap(current));
    if mode == ReplaceMode {
      var tail := Leftovers(current, desired);
      WithoutDistinct(current, Names(desired));
      RemovalsOnePerName(Without(current, Names(desired)));
      LeftoversContents(current, desired);
      var ops := head + tail;
      forall i, j | 0 <= i < j < |ops| ensures ops[i].name != ops[j].name {
        if i < |head| && |head| <= j {
          assert ops[i] in head;
          assert ops[j] in tail;
          assert ops[j] == Delete(ops[j].name);
        }
      }
    }
  }

  // ---------------------------------------------------------------------------
  // When nothing is issued

  /** Every desired label is already present with its colour. */
  predicate Covers(current: map<string, string>, desired: map<string, string>)
  {
    forall n :: n in desired ==> n in current && current[n] == desired[n]
  }

  /** No create or update is issued exactly when the repository covers the pattern. */
  lemma ReconcileEmpty(desired: seq<Label>, current: map<string, string>)
    requires Distinct(desired)
    ensures Reconcile(desired, current) == [] <==> Covers(current, ToMap(desired))
  {
    var ops := Reconcile(desired, current);
    var want := ToMap(desired);
    ReconcileContents(desired, current);
    ReconcileTouchesPattern(desired, current);
    if Covers(current, want) {
      if ops != [] {
        var op := ops[0];
        assert op in ops;
        ToMapOfMember(desired, Label(op.name, op.color));
        assert false;
      }
    } else {
      var n :| n in want && !(n in current && current[n] == want[n]);
      ToMapEntry(desired, n);
      if n in current {
        assert Update(n, want[n]) in ops;
      } else {
        assert Create(n, want[n]) in ops;
      }
    }
  }

  /** No delete is issued exactly when every current name is in the pattern. */
  lemma LeftoversEmpty(current: seq<Label>, desired: seq<Label>)
    ensures Leftovers(current, desired) == [] <==> Names(current) <= Names(desired)
  {
    var tail := Leftovers(current, desired);
    LeftoversContents(current, desired);
    if tail != [] {
      assert tail[0] in tail;
    }
  }

  /**
   * Nothing is issued exactly when the repository already agrees: in update mode
   * when every desired label is present with its colour, in replace mode when
   * the repository's dict is the pattern's dict.
   */
  lemma NothingToDo(desired: seq<Label>, current: seq<Label>, mode: Mode)
    requires Distinct(desired)
    ensures mode == UpdateMode ==> (Decide(desired, current, mode) == [] <==> Covers(ToMap(current), ToMap(desired)))
    ensures mode == ReplaceMode ==> (Decide(desired, current, mode) == [] <==> ToMap(current) == ToMap(desired))
  {
    var cur, want := ToMap(current), ToMap(desired);
    ReconcileEmpty(desired, cur);
    LeftoversEmpty(current, desired);
    ToMapKeys(current);
    ToMapKeys(desired);
    if mode == ReplaceMode {
      if cur == want {
        assert Covers(cur, want);
      }
      if Covers(cur, want) && Names(current) <= Names(desired) {
        assert cur == want;
      }
    }
  }

  /** Idempotence: a repository that already has the pattern gets no calls, in either mode. */
  lemma Idempotent(desired: seq<Label>, current: seq<Label>, mode: Mode)
    requires Distinct(desired) && ToMap(current) == ToMap(desired)
    ensures Decide(desired, current, mode) == []
  {
    NothingToDo(desired, current, mode);
  }

  // ---------------------------------------------------------------------------
  // Edge cases

  /**
   * A failed listing yields an empty dict: then every desired label is created,
   * in pattern order, and nothing is deleted, whatever the mode.
   */
  lemma {:induction false} EmptyCurrentCreatesAll(desired: seq<Label>, mode: Mode)
    ensures Decide(desired, [], mode) == seq(|desired|, i requires 0 <= i < |desired| => Create(desired[i].name, desired[i].color))
  {
    if desired != [] {
      var init, last := desired[..|desired| - 1], desired[|desired| - 1];
      assert desired == init + [last];
      EmptyCurrentCreatesAll(init, mode);
      assert Decide(desired, [], mode) == Decide(init, [], mode) + [Create(last.name, last.color)];
    }
  }

  /** An empty pattern deletes every current label in replace mode, and does nothing in update mode. */
  lemma EmptyPattern(current: seq<Label>)
    ensures Decide([], current, ReplaceMode) == Removals(current)
    ensures Decide([], current, UpdateMode) == []
  {
    assert Names([]) == {};
    WithoutNothing(current);
  }

  /**
   * A repository with `bug` in the wrong colour and an extra `feature`: replace
   * mode recolours `bug` and deletes `feature`; update mode only recolours.
   */
  lemma MismatchScenario()
    ensures var desired := [Label("bug", "ff0000")];
      var current := [Label("bug", "00ff00"), Label("feature", "0000ff")];
      && Decide(desired, current, ReplaceMode) == [Update("bug", "ff0000"), Delete("feature")]
      && Decide(desired, current, UpdateMode) == [Update("bug", "ff0000")]
  {
    var desired := [Label("bug", "ff0000")];
    var current := [Label("bug", "00ff00"), Label("feature", "0000ff")];
    assert desired[..0] == [];
    assert current[..1] == [Label("bug", "00ff00")] && current[..1][..0] == [];
    assert ToMap(current) == map["bug" := "00ff00", "feature" := "0000ff"];
    assert Names(desired) == {"bug"} by {
      assert desired[0] in desired;
    }
    assert Without(current, {"bug"}) == [Label("feature", "0000ff")];
  }

  /** Colours are compared as written: `FF0000` against `ff0000` is an update. */
  lemma ColourCaseMatters()
    ensures Decide([Label("bug", "FF0000")], [Label("bug", "ff0000")], UpdateMode) == [Update("bug", "FF0000")]
  {
    var current := [Label("bug", "ff0000")];
    assert current[..0] == [];
    assert ToMap(current) == map["bug" := "ff0000"];
    assert [Label("bug", "FF0000")][..0] == [];
    assert "ff0000" != "FF0000" by {
      assert "ff0000"[0] != "FF0000"[0];
    }
  }
}
