/** The two places where the class's serialisation departs from the
    contract that both forms describe the current stats and nothing else:
    `toArray` keeps a stale `'stat'` entry once the list has been emptied,
    and `toXml` appends the children again on every call. For each, a
    counterexample against the transition as written, then a corrected
    transition with the intended property proved. */
module CorrectedSerialization {
  import opened Wrappers
  import opened SoapStruct
  import opened GetServerStats
  import opened GetServerStatsProperties

  /** As written: serialise one stat, empty the list with `stats([])`, and
      `toArray` still reports the removed stat under `'stat'`. */
  lemma StaleEntryAfterClear(s: Stat)
    ensures
      var cleared := SetStats(ToArray(New([IsStat(s)])).state, []);
      && cleared.stats == []
      && ToArray(cleared).value == Some([s.attrs])
  {
    assert [IsStat(s)][..0] == [];
    var built := New([IsStat(s)]);
    assert built.stats == [s];
    var entry := ToArray(built).value;
    assert entry.Some? && |entry.value| == 1 && entry.value[0] == s.attrs;
    assert entry.value == [s.attrs];
  }

  /** As written: a second `toXml` call on an unchanged one-stat request
      leaves two `'stat'` children describing the same stat. */
  lemma XmlDuplicatesOnSecondCall(s: Stat)
    ensures
      var r := New([IsStat(s)]);
      && |r.stats| == 1
      && ToXml(ToXml(r).state).value == [XmlForm(s, StatKey), XmlForm(s, StatKey)]
  {
    assert [IsStat(s)][..0] == [];
    assert New([IsStat(s)]).stats == [s];
  }

  /** Corrected `toArray`: as written when there are stats, and the `'stat'`
      entry removed when there are none. */
  function ToArrayReset(r: Request): (res: Returned<Option<seq<Attrs>>>)
    ensures res.state.stats == r.stats && res.state.xmlChildren == r.xmlChildren
    ensures res.value == res.state.arrayStat
    ensures res.value.None? <==> |r.stats| == 0
    ensures res.value.Some? ==>
      && |res.value.value| == |r.stats|
      && forall i :: 0 <= i < |r.stats| ==>
           res.value.value[i] == ArrayForm(r.stats[i], StatKey)[StatKey]
  {
    if |r.stats| > 0 then ToArray(r)
    else Returned(r.(arrayStat := None), None)
  }

  /** The corrected entry depends on the current stats alone: it is what a
      fresh instance constructed with the same stats would produce. */
  lemma ToArrayResetMatchesFresh(r: Request)
    ensures ToArrayReset(r).value == ToArray(New(Lift(r.stats))).value
  {
    FilterLift(r.stats);
  }

  /** Corrected `toXml`: the `'stat'` children are rebuilt from the list
      rather than appended to the earlier ones. */
  function ToXmlRebuild(r: Request): (res: Returned<seq<XmlElement>>)
    ensures res.state.stats == r.stats && res.state.arrayStat == r.arrayStat
    ensures res.value == res.state.xmlChildren
    ensures |res.value| == |r.stats|
    ensures forall i :: 0 <= i < |r.stats| ==> res.value[i] == XmlForm(r.stats[i], StatKey)
  {
    var children := StatElements(r.stats);
    Returned(r.(xmlChildren := children), children)
  }

  /** The corrected XML path is idempotent. */
  lemma ToXmlRebuildIdempotent(r: Request)
    ensures ToXmlRebuild(ToXmlRebuild(r).state) == ToXmlRebuild(r)
  {
  }

  /** The corrected children depend on the current stats alone: they are
      what a fresh instance constructed with the same stats would produce. */
  lemma ToXmlRebuildMatchesFresh(r: Request)
    ensures ToXmlRebuild(r).value == ToXml(New(Lift(r.stats))).value
  {
    FilterLift(r.stats);
  }

  /** With the corrected pair, whatever the history of the instance, the two
      forms describe the same stats: the array entry is absent exactly when
      there are no children, and otherwise lists, in order, the attributes
      of the `'stat'` children. */
  lemma CorrectedFormsAgree(r: Request)
    ensures
      var a := ToArrayReset(r);
      var x := ToXmlRebuild(a.state);
      && (a.value.None? <==> x.value == [])
      && |a.value.GetOr([])| == |x.value|
      && forall i :: 0 <= i < |x.value| ==>
           x.value[i].tag == StatKey && a.value.GetOr([])[i] == x.value[i].attrs
  {
  }
}
