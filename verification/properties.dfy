/** Properties of the `GetServerStats` transitions that relate several calls:
    the setter against the getter and `addStat`, the selection order of the
    setter, the idempotence of `toArray`, the stale `'stat'` entry it can
    leave, and the accumulation of XML children over repeated `toXml` calls. */
module GetServerStatsProperties {
  import opened Wrappers
  import opened SoapStruct
  import opened GetServerStats

  /** A strictly increasing list of non-negative positions has its i-th
      entry at least i. */
  lemma {:induction false} IncreasingFromZero(pos: seq<int>)
    requires forall i :: 0 <= i < |pos| ==> 0 <= pos[i]
    requires forall i, j :: 0 <= i < j < |pos| ==> pos[i] < pos[j]
    ensures forall i :: 0 <= i < |pos| ==> i <= pos[i]
  {
    if |pos| > 0 {
      var front := pos[..|pos| - 1];
      IncreasingFromZero(front);
      assert forall i :: 0 <= i < |front| ==> front[i] == pos[i];
      if |pos| >= 2 {
        assert pos[|pos| - 2] < pos[|pos| - 1];
      }
    }
  }

  /** A selection has no more positions than there are candidates. */
  lemma SelectsLength(xs: seq<Candidate>, pos: seq<int>, r: seq<Stat>)
    requires Selects(xs, pos, r)
    ensures |r| == |pos| <= |xs|
  {
    if |pos| > 0 {
      IncreasingFromZero(pos);
      assert |pos| - 1 <= pos[|pos| - 1] < |xs|;
    }
  }

  /** When the last candidate is a `Stat`, a selection ends with its
      position, and the rest of the selection selects from the front. */
  lemma SelectsDropStat(xs: seq<Candidate>, pos: seq<int>, r: seq<Stat>)
    requires Selects(xs, pos, r)
    requires |xs| > 0 && xs[|xs| - 1].IsStat?
    ensures |pos| > 0
    ensures Selects(xs[..|xs| - 1], pos[..|pos| - 1], r[..|r| - 1])
    ensures xs[|xs| - 1] == IsStat(r[|r| - 1])
  {
    var n := |xs|;
    assert n - 1 in pos;
    var k :| 0 <= k < |pos| && pos[k] == n - 1;
    var m := |pos| - 1;
    assert pos[k] <= pos[m];
    assert pos[m] == n - 1;
    var front := xs[..n - 1];
    forall q | 0 <= q < |front| && front[q].IsStat?
      ensures q in pos[..m]
    {
      assert xs[q].IsStat?;
      var j :| 0 <= j < |pos| && pos[j] == q;
      assert j < m;
      assert pos[..m][j] == q;
    }
    forall i | 0 <= i < m
      ensures pos[i] < n - 1
    {
      assert pos[i] < pos[m];
    }
  }

  /** When the last candidate is not a `Stat`, a selection selects from the
      front alone. */
  lemma SelectsDropOther(xs: seq<Candidate>, pos: seq<int>, r: seq<Stat>)
    requires Selects(xs, pos, r)
    requires |xs| > 0 && xs[|xs| - 1].NotStat?
    ensures Selects(xs[..|xs| - 1], pos, r)
  {
    forall i | 0 <= i < |pos|
      ensures pos[i] < |xs| - 1
    {
      assert xs[pos[i]].IsStat?;
    }
  }

  /** Any selection of the `Stat` positions of `xs`, in increasing order, is
      exactly `Filter(xs)`: the setter keeps the stats in input order and
      nothing else. */
  lemma {:induction false} SelectsUnique(xs: seq<Candidate>, pos: seq<int>, r: seq<Stat>)
    requires Selects(xs, pos, r)
    ensures r == Filter(xs)
    decreases |xs|
  {
    if xs == [] {
      SelectsLength(xs, pos, r);
    } else {
      var front := xs[..|xs| - 1];
      var last := xs[|xs| - 1];
      if last.IsStat? {
        SelectsDropStat(xs, pos, r);
        var rFront := r[..|r| - 1];
        SelectsUnique(front, pos[..|pos| - 1], rFront);
        assert Filter(xs) == Filter(front) + [last.stat];
        assert r == rFront + [r[|r| - 1]];
      } else {
        SelectsDropOther(xs, pos, r);
        SelectsUnique(front, pos, r);
        assert Filter(xs) == Filter(front);
      }
    }
  }

  /** Filtering a list in which every element is a `Stat` gives it back. */
  lemma {:induction false} FilterLift(ss: seq<Stat>)
    ensures Filter(Lift(ss)) == ss
    decreases |ss|
  {
    if ss != [] {
      var n := |ss|;
      assert Lift(ss)[..n - 1] == Lift(ss[..n - 1]);
      FilterLift(ss[..n - 1]);
      assert ss == ss[..n - 1] + [ss[n - 1]];
    }
  }

  /** Constructing with a list of stats and reading it back gives the same
      list in the same order. */
  lemma ConstructThenRead(ss: seq<Stat>)
    ensures Stats(New(Lift(ss)), None).value == Current(ss)
  {
    FilterLift(ss);
  }

  /** Handing the getter's result back to the setter changes nothing:
      `stats(stats())` is the identity on the whole instance. */
  lemma SetStatsOfGetIsIdentity(r: Request)
    ensures Stats(r, Some(Lift(Stats(r, None).value.list))).state == r
  {
    FilterLift(r.stats);
  }

  /** Replacing twice with the same array is the same as replacing once. */
  lemma SetStatsIdempotent(r: Request, xs: seq<Candidate>)
    ensures SetStats(SetStats(r, xs), xs) == SetStats(r, xs)
  {
  }

  /** `addStat` after the setter equals the setter given one more `Stat` at
      the end of its array; both hand back the instance. */
  lemma AddStatExtendsCandidates(r: Request, xs: seq<Candidate>, s: Stat)
    ensures AddStat(SetStats(r, xs), s) == Returned(SetStats(r, xs + [IsStat(s)]), This)
  {
    assert (xs + [IsStat(s)])[..|xs|] == xs;
  }

  /** Constructing with `[a]` and adding `b` gives the same stats as
      constructing with `[a, b]`. */
  lemma AddStatAfterConstruct(a: Stat, b: Stat)
    ensures AddStat(New([IsStat(a)]), b).state.stats == New([IsStat(a), IsStat(b)]).stats
  {
    AddStatExtendsCandidates(Empty(), [IsStat(a)], b);
    assert [IsStat(a)] + [IsStat(b)] == [IsStat(a), IsStat(b)];
  }

  /** Calling `toArray` again without a mutation in between changes neither
      the instance nor the returned entry. */
  lemma ToArrayIdempotent(r: Request)
    ensures ToArray(ToArray(r).state) == ToArray(r)
  {
  }

  /** On a freshly constructed instance the `'stat'` entry of `toArray` is
      absent exactly when no `Stat` was passed to the constructor. */
  lemma FreshToArrayAbsentIffNoStats(xs: seq<Candidate>)
    ensures ToArray(New(xs)).value.None? <==> CountStats(xs) == 0
  {
  }

  /** With an empty list, `toArray` returns whatever entry an earlier call
      left behind. */
  lemma EmptyListKeepsEntry(r: Request)
    requires r.stats == []
    ensures ToArray(r).value == r.arrayStat
  {
  }

  /** `n` successive `toXml` calls with no mutation in between. */
  function ToXmlTimes(r: Request, n: nat): (r': Request)
    ensures r'.stats == r.stats && r'.arrayStat == r.arrayStat
  {
    if n == 0 then r else ToXml(ToXmlTimes(r, n - 1)).state
  }

  /** `n` copies of `e`, one after the other. */
  function Repeat<T>(e: seq<T>, n: nat): seq<T>
  {
    if n == 0 then [] else Repeat(e, n - 1) + e
  }

  /** `n` copies of `e` hold `n * |e|` elements. */
  lemma {:induction false} RepeatLength<T>(e: seq<T>, n: nat)
    ensures |Repeat(e, n)| == n * |e|
  {
    if n > 0 {
      RepeatLength(e, n - 1);
      assert n * |e| == (n - 1) * |e| + |e|;
    }
  }

  /** One more `toXml` call appends the stats' elements once more. */
  lemma ToXmlTimesStep(r: Request, n: nat)
    requires n > 0
    ensures ToXmlTimes(r, n).xmlChildren == ToXmlTimes(r, n - 1).xmlChildren + StatElements(r.stats)
  {
  }

  /** Appending one more copy after `n - 1` copies gives `n` copies. */
  lemma AppendRepeat<T>(a: seq<T>, e: seq<T>, n: nat)
    requires n > 0
    ensures (a + Repeat(e, n - 1)) + e == a + Repeat(e, n)
  {
  }

  /** After `n` `toXml` calls the document holds its earlier children
      followed by `n` copies of the stats' elements. */
  lemma {:induction false} ToXmlAccumulates(r: Request, n: nat)
    ensures ToXmlTimes(r, n).xmlChildren == r.xmlChildren + Repeat(StatElements(r.stats), n)
  {
    if n == 0 {
      assert r.xmlChildren + [] == r.xmlChildren;
    } else {
      ToXmlAccumulates(r, n - 1);
      ToXmlTimesStep(r, n);
      AppendRepeat(r.xmlChildren, StatElements(r.stats), n);
    }
  }

  /** `n` `toXml` calls add `n * |stats|` children: the XML path is not
      idempotent. */
  lemma ToXmlChildCount(r: Request, n: nat)
    ensures |ToXmlTimes(r, n).xmlChildren| == |r.xmlChildren| + n * |r.stats|
  {
    ToXmlAccumulates(r, n);
    RepeatLength(StatElements(r.stats), n);
  }

  /** With at least one stat, a second `toXml` call changes the document. */
  lemma ToXmlNotIdempotent(r: Request)
    requires |r.stats| > 0
    ensures ToXml(ToXml(r).state) != ToXml(r)
  {
    assert |ToXml(ToXml(r).state).value| == |ToXml(r).value| + |r.stats|;
  }

  /** On a freshly constructed instance, one `toArray` and one `toXml` call
      describe the same stats: the array entry lists, in order, the
      attributes of the `'stat'` children, and is absent when there are none. */
  lemma FreshFormsAgree(xs: seq<Candidate>)
    ensures
      var a := ToArray(New(xs));
      var x := ToXml(a.state);
      && (a.value.None? <==> x.value == [])
      && |a.value.GetOr([])| == |x.value|
      && forall i :: 0 <= i < |x.value| ==>
           x.value[i].tag == StatKey && a.value.GetOr([])[i] == x.value[i].attrs
  {
  }

  /** A request built from two stats: the array form lists their attribute
      mappings under `'stat'` and the XML form holds two `'stat'` children
      with the same attributes, both in construction order. */
  lemma TwoStatsForms(a: Stat, b: Stat)
    ensures
      var r := New([IsStat(a), IsStat(b)]);
      && ToArray(r).value == Some([a.attrs, b.attrs])
      && ToXml(ToArray(r).state).value
           == [XmlElement(StatKey, a.attrs), XmlElement(StatKey, b.attrs)]
  {
    assert [IsStat(a), IsStat(b)][..1] == [IsStat(a)];
    assert Filter([IsStat(a), IsStat(b)]) == [a, b];
    var entries := StatEntries([a, b]);
    assert entries[0] == a.attrs && entries[1] == b.attrs;
    assert entries == [a.attrs, b.attrs];
    var elements := StatElements([a, b]);
    assert elements[0] == XmlElement(StatKey, a.attrs);
    assert elements[1] == XmlElement(StatKey, b.attrs);
    assert elements == [XmlElement(StatKey, a.attrs), XmlElement(StatKey, b.attrs)];
  }

  /** The two-statistic request for `threads_active` = 5 and
      `request_count` = 120. */
  lemma TwoStatsExample()
    ensures
      var a := Stat(map["name" := "threads_active", "value" := "5"]);
      var b := Stat(map["name" := "request_count", "value" := "120"]);
      ToArray(New([IsStat(a), IsStat(b)])).value
        == Some([map["name" := "threads_active", "value" := "5"],
                 map["name" := "request_count", "value" := "120"]])
  {
    var a := Stat(map["name" := "threads_active", "value" := "5"]);
    var b := Stat(map["name" := "request_count", "value" := "120"]);
    TwoStatsForms(a, b);
  }
}
