/**
 * Label sets as the tool sees them: an ordered sequence of (name, colour) pairs,
 * standing for a Python dict whose iteration order is insertion order.
 * Lookups go through ToMap, so a name bound twice keeps its last colour,
 * as a dict filled by successive assignments does.
 */
module LabelSets {

  datatype Option<T> = None | Some(value: T)

  /** A label of a repository: its name is its identity, its colour a hex code string. */
  datatype Label = Label(name: string, color: string)

  /** The set of names bound in a label sequence. */
  function Names(s: seq<Label>): set<string>
  {
    set l | l in s :: l.name
  }

  /** No name occurs twice: the sequence is the item list of a dict. */
  predicate Distinct(s: seq<Label>)
  {
    forall i, j :: 0 <= i < j < |s| ==> s[i].name != s[j].name
  }

  /** The dict a sequence of assignments `d[name] = color` builds. */
  function ToMap(s: seq<Label>): map<string, string>
  {
    if s == [] then map[]
    else
      var init := s[..|s| - 1];
      assert s == init + [s[|s| - 1]];
      ToMap(init)[s[|s| - 1].name := s[|s| - 1].color]
  }

  /** The labels of `s` whose names are not in `gone`, in their original order. */
  function Without(s: seq<Label>, gone: set<string>): seq<Label>
  {
    if s == [] then []
    else
      var init := s[..|s| - 1];
      var last := s[|s| - 1];
      assert s == init + [last];
      if last.name in gone then Without(init, gone) else Without(init, gone) + [last]
  }

  /** Filtering keeps exactly the labels whose names are not removed. */
  lemma {:induction false} InWithout(s: seq<Label>, gone: set<string>)
    ensures forall l :: l in Without(s, gone) <==> l in s && l.name !in gone
  {
    if s != [] {
      var init, last := s[..|s| - 1], s[|s| - 1];
      assert s == init + [last];
      InWithout(init, gone);
    }
  }

  lemma NamesWithout(s: seq<Label>, gone: set<string>)
    ensures Names(Without(s, gone)) == Names(s) - gone
  {
    InWithout(s, gone);
    forall n | n in Names(s) - gone ensures n in Names(Without(s, gone)) {
      var l :| l in s && l.name == n;
      assert l in Without(s, gone);
    }
  }

  lemma NamesAppend(s: seq<Label>, l: Label)
    ensures Names(s + [l]) == Names(s) + {l.name}
  {
    assert l in s + [l];
    forall n | n in Names(s) ensures n in Names(s + [l]) {
      var k :| k in s && k.name == n;
      assert k in s + [l];
    }
  }

  /** The dict's keys are the names of the sequence. */
  lemma {:induction false} ToMapKeys(s: seq<Label>)
    ensures ToMap(s).Keys == Names(s)
  {
    if s != [] {
      var init, last := s[..|s| - 1], s[|s| - 1];
      assert s == init + [last];
      ToMapKeys(init);
      NamesAppend(init, last);
    }
  }

  /** Every entry of the dict comes from a label of the sequence. */
  lemma {:induction false} ToMapEntry(s: seq<Label>, n: string)
    requires n in ToMap(s)
    ensures Label(n, ToMap(s)[n]) in s
  {
    var init, last := s[..|s| - 1], s[|s| - 1];
    assert s == init + [last];
    if n != last.name {
      ToMapEntry(init, n);
    }
  }

  /** Filtering by nothing keeps everything. */
  lemma {:induction false} WithoutNothing(s: seq<Label>)
    ensures Without(s, {}) == s
  {
    if s != [] {
      var init, last := s[..|s| - 1], s[|s| - 1];
      assert s == init + [last];
      WithoutNothing(init);
    }
  }

  /** Filtering a concatenation filters each part. */
  lemma {:induction false} WithoutAppend(a: seq<Label>, b: seq<Label>, gone: set<string>)
    ensures Without(a + b, gone) == Without(a, gone) + Without(b, gone)
  {
    if b == [] {
      assert a + b == a;
    } else {
      var init, last := b[..|b| - 1], b[|b| - 1];
      assert b == init + [last];
      assert a + b == (a + init) + [last];
      WithoutAppend(a, init, gone);
    }
  }

  /** The last label of a distinct sequence is named nowhere before it. */
  lemma DistinctLast(s: seq<Label>)
    requires Distinct(s) && s != []
    ensures Distinct(s[..|s| - 1]) && s[|s| - 1].name !in Names(s[..|s| - 1])
  {
  }

  /** In a distinct sequence a label's colour is what the dict holds for its name. */
  lemma {:induction false} ToMapOfMember(s: seq<Label>, l: Label)
    requires Distinct(s) && l in s
    ensures l.name in ToMap(s) && ToMap(s)[l.name] == l.color
  {
    var init, last := s[..|s| - 1], s[|s| - 1];
    assert s == init + [last];
    if l != last {
      assert l in init;
      var i :| 0 <= i < |init| && init[i] == l;
      assert s[i] == l;
      ToMapOfMember(init, l);
    }
  }

  /** Removing names from the sequence removes them from the dict. */
  lemma {:induction false} ToMapWithout(s: seq<Label>, gone: set<string>)
    ensures ToMap(Without(s, gone)) == ToMap(s) - gone
  {
    if s != [] {
      var init, last := s[..|s| - 1], s[|s| - 1];
      assert s == init + [last];
      ToMapWithout(init, gone);
      var w := Without(init, gone);
      if last.name !in gone {
        assert (w + [last])[..|w|] == w;
        calc {
          ToMap(Without(s, gone));
          ToMap(w + [last]);
          ToMap(w)[last.name := last.color];
          (ToMap(init) - gone)[last.name := last.color];
          ToMap(init)[last.name := last.color] - gone;
          ToMap(s) - gone;
        }
      } else {
        calc {
          ToMap(Without(s, gone));
          ToMap(w);
          ToMap(init) - gone;
          ToMap(init)[last.name := last.color] - gone;
          ToMap(s) - gone;
        }
      }
    }
  }

  /** Removing one more name from an already filtered sequence. */
  lemma {:induction false} WithoutWithout(s: seq<Label>, gone: set<string>, n: string)
    ensures Without(Without(s, gone), {n}) == Without(s, gone + {n})
  {
    if s != [] {
      var init, last := s[..|s| - 1], s[|s| - 1];
      assert s == init + [last];
      WithoutWithout(init, gone, n);
      var w := Without(init, gone);
      if last.name !in gone {
        assert (w + [last])[..|w|] == w;
      }
    }
  }

  lemma {:induction false} WithoutDistinct(s: seq<Label>, gone: set<string>)
    requires Distinct(s)
    ensures Distinct(Without(s, gone))
  {
    if s != [] {
      var init, last := s[..|s| - 1], s[|s| - 1];
      assert s == init + [last];
      assert Distinct(init);
      WithoutDistinct(init, gone);
      var w := Without(init, gone);
      if last.name !in gone {
        InWithout(init, gone);
        forall i | 0 <= i < |w| ensures w[i].name != last.name {
          assert w[i] in w;
          var k :| 0 <= k < |init| && init[k] == w[i];
          assert s[k] == w[i];
        }
      }
    }
  }
}
