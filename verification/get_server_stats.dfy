/** The `GetServerStats` admin request builder: an ordered list of `Stat`
    structs, an optional `'stat'` entry of the request's array form and the
    `'stat'` children of its XML document, with one pure transition per
    method of the class. Each transition returns the new state of the instance
    together with the value the method returns. */
module GetServerStats {
  import opened Wrappers
  import opened SoapStruct

  /** The key of the array form and the tag of the XML children. */
  const StatKey: string := "stat"

  /** One element of a loosely typed PHP array handed to the bulk setter:
      either a `Stat` instance or anything else. */
  datatype Candidate = IsStat(stat: Stat) | NotStat

  /** The state of one request instance that this class reads or writes:
      the collected stats, the `'stat'` key of the array representation
      (absent or present) and the `'stat'` children appended to the XML
      document, in document order. */
  datatype Request = Request(
    stats: seq<Stat>,
    arrayStat: Option<seq<Attrs>>,
    xmlChildren: seq<XmlElement>
  )

  /** What `stats(...)` hands back: the current list (getter) or the
      instance itself (setter, for chaining). */
  datatype StatsReturn = Current(list: seq<Stat>) | This

  /** The state after a call together with the value the call returns. */
  datatype Returned<T> = Returned(state: Request, value: T)

  /** The number of `Stat` instances among the candidates. */
  function CountStats(xs: seq<Candidate>): nat
  {
    if xs == [] then 0
    else CountStats(xs[..|xs| - 1]) + (if xs[|xs| - 1].IsStat? then 1 else 0)
  }

  /** The `Stat` instances among the candidates, in input order; every other
      element is dropped. Written from the back, as the setter's loop appends. */
  function Filter(xs: seq<Candidate>): (r: seq<Stat>)
    ensures |r| == CountStats(xs) <= |xs|
  {
    if xs == [] then []
    else
      var front := Filter(xs[..|xs| - 1]);
      assert xs == xs[..|xs| - 1] + [xs[|xs| - 1]];
      if xs[|xs| - 1].IsStat? then front + [xs[|xs| - 1].stat] else front
  }

  /** A stat is kept by the filter exactly when it occurs among the
      candidates: no `Stat` is lost and nothing else is let through. */
  lemma {:induction false} FilterMembership(xs: seq<Candidate>, s: Stat)
    ensures s in Filter(xs) <==> IsStat(s) in xs
    decreases |xs|
  {
    if xs != [] {
      var front := xs[..|xs| - 1];
      FilterMembership(front, s);
      assert xs == front + [xs[|xs| - 1]];
    }
  }

  /** Every element of a list of stats, as candidates (passing the getter's
      result back to the setter). */
  function Lift(ss: seq<Stat>): (xs: seq<Candidate>)
    ensures |xs| == |ss|
  {
    seq(|ss|, i requires 0 <= i < |ss| => IsStat(ss[i]))
  }

  /** `pos` lists, in strictly increasing order, exactly the positions of `xs`
      that hold a `Stat`, and `r` is the list of those stats in that order. */
  predicate Selects(xs: seq<Candidate>, pos: seq<int>, r: seq<Stat>)
  {
    && |pos| == |r|
    && (forall i :: 0 <= i < |pos| ==> 0 <= pos[i] < |xs| && xs[pos[i]] == IsStat(r[i]))
    && (forall i, j :: 0 <= i < j < |pos| ==> pos[i] < pos[j])
    && (forall k :: 0 <= k < |xs| && xs[k].IsStat? ==> k in pos)
  }

  /** The setter's loop: walks the candidates once and keeps each `Stat`,
      also reporting the input position each kept element came from. */
  method FilterStats(xs: seq<Candidate>) returns (r: seq<Stat>, pos: seq<int>)
    ensures Selects(xs, pos, r)
    ensures r == Filter(xs)
  {
    r := [];
    pos := [];
    var i := 0;
    while i < |xs|
      invariant 0 <= i <= |xs|
      invariant |pos| == |r|
      invariant forall k :: 0 <= k < |pos| ==> 0 <= pos[k] < i && xs[pos[k]] == IsStat(r[k])
      invariant forall k, l :: 0 <= k < l < |pos| ==> pos[k] < pos[l]
      invariant forall k :: 0 <= k < i && xs[k].IsStat? ==> k in pos
      invariant r == Filter(xs[..i])
    {
      assert xs[..i + 1][..i] == xs[..i];
      if xs[i].IsStat? {
        r := r + [xs[i].stat];
        pos := pos + [i];
      }
      i := i + 1;
    }
    assert xs[..i] == xs;
  }

  /** A fresh instance: nothing collected, no `'stat'` entry, no children. */
  function Empty(): (r: Request)
    ensures r.stats == [] && r.arrayStat.None? && r.xmlChildren == []
  {
    Request([], None, [])
  }

  /** `stats($stats)` with an array: the previous list is discarded and
      replaced by the `Stat` elements of the argument; the serialised forms
      are not touched. */
  function SetStats(r: Request, xs: seq<Candidate>): (r': Request)
    ensures r'.stats == Filter(xs)
    ensures |r'.stats| == CountStats(xs) <= |xs|
    ensures forall s :: s in r'.stats <==> IsStat(s) in xs
    ensures r'.arrayStat == r.arrayStat && r'.xmlChildren == r.xmlChildren
  {
    forall s ensures s in Filter(xs) <==> IsStat(s) in xs {
      FilterMembership(xs, s);
    }
    r.(stats := Filter(xs))
  }

  /** `stats()` and `stats($stats)`: `None` stands for the omitted (null)
      argument, which reads the list; an array replaces it. */
  function Stats(r: Request, arg: Option<seq<Candidate>>): (res: Returned<StatsReturn>)
    ensures arg.None? ==> res.state == r && res.value == Current(r.stats)
    ensures arg.Some? ==> res.value == This && res.state == SetStats(r, arg.value)
  {
    match arg
    case None => Returned(r, Current(r.stats))
    case Some(xs) => Returned(SetStats(r, xs), This)
  }

  /** `new GetServerStats($stats)`; the default argument is `New([])`. */
  function New(xs: seq<Candidate>): (r: Request)
    ensures r.stats == Filter(xs)
    ensures r.arrayStat.None? && r.xmlChildren == []
  {
    SetStats(Empty(), xs)
  }

  /** `addStat($stat)`: appends one stat at the end and returns the instance. */
  function AddStat(r: Request, s: Stat): (res: Returned<StatsReturn>)
    ensures res.value == This
    ensures |res.state.stats| == |r.stats| + 1
    ensures res.state.stats[..|r.stats|] == r.stats && res.state.stats[|r.stats|] == s
    ensures res.state.arrayStat == r.arrayStat && res.state.xmlChildren == r.xmlChildren
  {
    Returned(r.(stats := r.stats + [s]), This)
  }

  /** The `'stat'` entries built from a list of stats: the `'stat'`
      sub-mapping of each struct's array form, in list order. */
  function StatEntries(ss: seq<Stat>): (e: seq<Attrs>)
    ensures |e| == |ss|
    ensures forall i :: 0 <= i < |ss| ==> e[i] == ArrayForm(ss[i], StatKey)[StatKey]
  {
    if ss == [] then []
    else StatEntries(ss[..|ss| - 1]) + [ArrayForm(ss[|ss| - 1], StatKey)[StatKey]]
  }

  /** The XML children built from a list of stats: each struct's XML form
      under tag `'stat'`, in list order. */
  function StatElements(ss: seq<Stat>): (e: seq<XmlElement>)
    ensures |e| == |ss|
    ensures forall i :: 0 <= i < |ss| ==> e[i] == XmlForm(ss[i], StatKey)
  {
    if ss == [] then []
    else StatElements(ss[..|ss| - 1]) + [XmlForm(ss[|ss| - 1], StatKey)]
  }

  /** `toArray()`: with a non-empty list, the `'stat'` entry is reset and
      rebuilt from the list; with an empty list it is left as it was, absent
      or not. The value is the `'stat'` entry of the returned array. */
  function ToArray(r: Request): (res: Returned<Option<seq<Attrs>>>)
    ensures res.state.stats == r.stats && res.state.xmlChildren == r.xmlChildren
    ensures res.value == res.state.arrayStat
    ensures |r.stats| > 0 ==>
      && res.value.Some?
      && |res.value.value| == |r.stats|
      && forall i :: 0 <= i < |r.stats| ==>
           res.value.value[i] == ArrayForm(r.stats[i], StatKey)[StatKey]
    ensures |r.stats| == 0 ==> res.state == r
  {
    if |r.stats| > 0 then
      var entry := Some(StatEntries(r.stats));
      Returned(r.(arrayStat := entry), entry)
    else
      Returned(r, r.arrayStat)
  }

  /** `toXml()`: appends one `'stat'` child per stat, in list order, after the
      children already in the document. The value is the document's
      `'stat'` children after the call. */
  function ToXml(r: Request): (res: Returned<seq<XmlElement>>)
    ensures res.state.stats == r.stats && res.state.arrayStat == r.arrayStat
    ensures res.value == res.state.xmlChildren
    ensures |res.value| == |r.xmlChildren| + |r.stats|
    ensures res.value[..|r.xmlChildren|] == r.xmlChildren
    ensures forall i :: 0 <= i < |r.stats| ==>
      res.value[|r.xmlChildren| + i] == XmlForm(r.stats[i], StatKey)
  {
    var children := r.xmlChildren + StatElements(r.stats);
    Returned(r.(xmlChildren := children), children)
  }
}
