/** Picking the class a page was given: the highest-scored entry of its
    `Classes`, as `max(classes, key=lambda x: x['Score'])` picks it. */
module TopClass {
  import opened Wrappers
  import opened Manifest

  /** `cs[best]` is the first entry of `cs[..upto]` with the highest score. */
  predicate IsFirstMax(cs: seq<ClassScore>, upto: nat, best: nat)
    requires best < upto <= |cs|
  {
    && (forall j :: 0 <= j < upto ==> cs[j].score <= cs[best].score)
    && (forall j :: 0 <= j < best ==> cs[j].score < cs[best].score)
  }

  /** The scan `max` performs from position `i` on, holding the best entry so
      far: a later entry replaces it only when it scores strictly higher. */
  function MaxFrom(cs: seq<ClassScore>, i: nat, best: nat): (r: nat)
    requires best < i <= |cs|
    requires IsFirstMax(cs, i, best)
    ensures r < |cs| && IsFirstMax(cs, |cs|, r)
    decreases |cs| - i
  {
    if i == |cs| then best
    else if cs[i].score > cs[best].score then MaxFrom(cs, i + 1, i)
    else MaxFrom(cs, i + 1, best)
  }

  /** `max_scored_class(page)`: the page's top class, or the exception the
      lookup raises — a page without a manifest record has no `Classes`
      (`KeyError`), and `max` of an empty list raises `ValueError`. */
  function MaxScoredClass(page: PageRecord): (r: Result<ClassScore>)
    ensures page.classification.None? ==> r == Err(MissingKey("Classes"))
    ensures page.classification.Some? && |page.classification.value.classes| == 0 ==> r == Err(EmptyMax)
    ensures r.Ok? ==> page.classification.Some?
    ensures r.Ok? ==>
      var cs := page.classification.value.classes;
      exists k :: 0 <= k < |cs| && cs[k] == r.value && IsFirstMax(cs, |cs|, k)
  {
    match page.classification
    case None => Err(MissingKey("Classes"))
    case Some(record) =>
      if |record.classes| == 0 then Err(EmptyMax)
      else
        var k := MaxFrom(record.classes, 1, 0);
        Ok(record.classes[k])
  }

  /** Whatever the list, the class chosen scores at least as high as every entry. */
  lemma TopScoreIsMaximal(page: PageRecord)
    requires MaxScoredClass(page).Ok?
    ensures forall c :: c in page.classification.value.classes ==> c.score <= MaxScoredClass(page).value.score
  {
    var cs := page.classification.value.classes;
    var k :| 0 <= k < |cs| && cs[k] == MaxScoredClass(page).value && IsFirstMax(cs, |cs|, k);
    forall c | c in cs ensures c.score <= cs[k].score {
      var j :| 0 <= j < |cs| && cs[j] == c;
    }
  }

  /** Ties go to the entry listed first: if position `k` holds the highest score
      and every earlier entry scores strictly less, entry `k` is the one picked. */
  lemma FirstMaximumWins(page: PageRecord, k: nat)
    requires page.classification.Some?
    requires k < |page.classification.value.classes|
    requires IsFirstMax(page.classification.value.classes, |page.classification.value.classes|, k)
    ensures MaxScoredClass(page) == Ok(page.classification.value.classes[k])
  {
  }
}
