/**
 * What the resolver promises, stated against definitions that do not mention
 * its step-by-step state: the annotations of a variant's first `sem`
 * attribute, how many of each kind it has, and how many variants set an index.
 */
module ResolverProperties {
  import opened Wrappers
  import opened Annotations
  import opened Resolver

  /** `a` is one of the annotations the resolver reads for `v`. */
  predicate SemHas(v: Variant, a: Annotation) {
    SemAnnotations(v).Some? && a in SemAnnotations(v).value
  }

  /** How many annotations of kind `k` the resolver reads for `v`. */
  function SemCount(v: Variant, k: Kind): nat {
    match SemAnnotations(v)
    case None => 0
    case Some(annots) => CountKind(annots, k)
  }

  /** The first `sem` attribute of `v` does not parse. */
  predicate ParseFails(v: Variant) {
    SemAnnotations(v).None?
  }

  /** `v` raises no error of its own: its `sem` list parses and sets each kind at most once. */
  predicate WellFormed(v: Variant) {
    !ParseFails(v) && SemCount(v, NameKind) <= 1 && SemCount(v, IndexKind) <= 1
  }

  predicate HasExplicitIndex(v: Variant) {
    SemCount(v, IndexKind) > 0
  }

  /** How many elements of `xs` satisfy `p`. */
  function CountWhere<T>(xs: seq<T>, p: T -> bool): (r: nat)
    ensures r <= |xs|
  {
    if xs == [] then 0
    else CountWhere(xs[..|xs| - 1], p) + (if p(xs[|xs| - 1]) then 1 else 0)
  }

  /** The count is zero exactly when no element, and full exactly when every element, satisfies `p`. */
  lemma {:induction false} CountWhereExtremes<T>(xs: seq<T>, p: T -> bool)
    ensures CountWhere(xs, p) == 0 <==> forall i :: 0 <= i < |xs| ==> !p(xs[i])
    ensures CountWhere(xs, p) == |xs| <==> forall i :: 0 <= i < |xs| ==> p(xs[i])
  {
    if xs != [] {
      var init := xs[..|xs| - 1];
      CountWhereExtremes(init, p);
      assert forall i :: 0 <= i < |init| ==> init[i] == xs[i];
    }
  }

  /** How many annotations of kind `k` a list holds. */
  function CountKind(annots: seq<Annotation>, k: Kind): (r: nat)
    ensures r <= |annots|
    ensures r == 0 <==> forall i :: 0 <= i < |annots| ==> KindOf(annots[i]) != k
  {
    CountWhereExtremes(annots, (a: Annotation) => KindOf(a) == k);
    CountWhere(annots, (a: Annotation) => KindOf(a) == k)
  }

  /** How many variants carry an `index` annotation. */
  function ExplicitIndexCount(vs: seq<Variant>): nat {
    CountWhere(vs, HasExplicitIndex)
  }

  /**
   * Absorbing a list succeeds exactly when no kind occurs twice; a failure
   * names a kind that does; on success the name and index are the ones the
   * list holds.
   */
  lemma {:induction false} CollectCorrect(annots: seq<Annotation>)
    ensures Collect(annots).Got? <==> CountKind(annots, NameKind) <= 1 && CountKind(annots, IndexKind) <= 1
    ensures Collect(annots).Dup? ==> CountKind(annots, Collect(annots).kind) >= 2
    ensures Collect(annots).Got? ==> forall s :: Collect(annots).e.name == Some(s) <==> Name(s) in annots
    ensures Collect(annots).Got? ==> forall n: nat :: Collect(annots).e.index == Some(n) <==> Index(n) in annots
  {
    if annots != [] {
      var init, last := annots[..|annots| - 1], annots[|annots| - 1];
      assert annots == init + [last];
      CollectCorrect(init);
      match Collect(init)
      case Dup(k) =>
      case Got(e) =>
        forall a: Annotation
          ensures a in annots <==> a in init || a == last
        {
        }
        forall i | 0 <= i < |init|
          ensures KindOf(init[i]) == NameKind ==> Name(init[i].name) in init
          ensures KindOf(init[i]) == IndexKind ==> Index(init[i].index) in init
        {
        }
    }
  }

  /** What one variant contributes, against its `sem` annotations. */
  lemma ExplicitOfCorrect(v: Variant)
    ensures ExplicitOf(v).Ok? <==> WellFormed(v)
    ensures ExplicitOf(v).Ok? ==> forall s :: ExplicitOf(v).value.name == Some(s) <==> SemHas(v, Name(s))
    ensures ExplicitOf(v).Ok? ==> forall n: nat :: ExplicitOf(v).value.index == Some(n) <==> SemHas(v, Index(n))
    ensures ExplicitOf(v).Ok? ==> (ExplicitOf(v).value.index.Some? <==> HasExplicitIndex(v))
    ensures ExplicitOf(v) == Err(ParseError(v.ident)) <==> ParseFails(v)
    ensures ExplicitOf(v).Err? && !ParseFails(v) ==>
              ExplicitOf(v) == Err(Duplicate(v.ident, ExplicitOf(v).error.kind)) &&
              SemCount(v, ExplicitOf(v).error.kind) >= 2
  {
    if SemAnnotations(v).Some? {
      var annots := SemAnnotations(v).value;
      CollectCorrect(annots);
      if Collect(annots).Got? && CountKind(annots, IndexKind) > 0 {
        var i :| 0 <= i < |annots| && KindOf(annots[i]) == IndexKind;
        assert Index(annots[i].index) in annots;
      }
    }
  }

  /**
   * Over all variants: success exactly when every variant succeeds, with the
   * per-variant results in order; otherwise the error of the first variant
   * that raises one.
   */
  lemma {:induction false} ExplicitAllCorrect(vs: seq<Variant>)
    ensures ExplicitAll(vs).Ok? <==> forall i :: 0 <= i < |vs| ==> ExplicitOf(vs[i]).Ok?
    ensures ExplicitAll(vs).Ok? ==> forall i :: 0 <= i < |vs| ==> ExplicitOf(vs[i]) == Ok(ExplicitAll(vs).value[i])
    ensures ExplicitAll(vs).Err? ==>
              exists i :: 0 <= i < |vs| && ExplicitOf(vs[i]) == Err(ExplicitAll(vs).error) &&
                          forall j :: 0 <= j < i ==> ExplicitOf(vs[j]).Ok?
  {
    if vs != [] {
      var init, last := vs[..|vs| - 1], vs[|vs| - 1];
      ExplicitAllCorrect(init);
      assert forall i :: 0 <= i < |init| ==> init[i] == vs[i];
      match ExplicitAll(init)
      case Err(e) =>
        var i :| 0 <= i < |init| && ExplicitOf(init[i]) == Err(e) &&
                 forall j :: 0 <= j < i ==> ExplicitOf(init[j]).Ok?;
        assert ExplicitOf(vs[i]) == Err(e);
      case Ok(es) =>
        match ExplicitOf(last)
        case Err(e) =>
        case Ok(x) =>
          assert forall i :: 0 <= i < |es| ==> (es + [x])[i] == es[i];
    }
  }

  /** On success, the source's counter ends equal to the number of variants carrying an index. */
  lemma {:induction false} CountMatches(vs: seq<Variant>)
    requires ExplicitAll(vs).Ok?
    ensures CountExplicit(ExplicitAll(vs).value) == ExplicitIndexCount(vs)
  {
    if vs != [] {
      var init, last := vs[..|vs| - 1], vs[|vs| - 1];
      CountMatches(init);
      ExplicitOfCorrect(last);
      var es := ExplicitAll(init).value;
      assert (es + [ExplicitOf(last).value])[..|es|] == es;
    }
  }

  /** Every variant succeeds exactly when every variant is well formed. */
  lemma AllWellFormed(vs: seq<Variant>)
    ensures (forall i :: 0 <= i < |vs| ==> ExplicitOf(vs[i]).Ok?) <==> forall i :: 0 <= i < |vs| ==> WellFormed(vs[i])
  {
    forall i | 0 <= i < |vs|
      ensures ExplicitOf(vs[i]).Ok? <==> WellFormed(vs[i])
    {
      ExplicitOfCorrect(vs[i]);
    }
  }

  /**
   * The derivation succeeds exactly when every variant is well formed and
   * either no variant or every variant carries an explicit index.
   */
  lemma ResolutionOk(vs: seq<Variant>, snake: string -> string)
    ensures Resolution(vs, snake).Ok? <==>
              (forall i :: 0 <= i < |vs| ==> WellFormed(vs[i])) &&
              (ExplicitIndexCount(vs) == 0 || ExplicitIndexCount(vs) == |vs|)
  {
    ExplicitAllCorrect(vs);
    AllWellFormed(vs);
    if ExplicitAll(vs).Ok? {
      CountMatches(vs);
    }
  }

  /**
   * The all-or-nothing check: it is the reason for failure exactly when every
   * variant is well formed and some, but not all, carry an explicit index;
   * the error reports that count and the number of variants.
   */
  lemma ResolutionInconsistent(vs: seq<Variant>, snake: string -> string)
    ensures (Resolution(vs, snake).Err? && Resolution(vs, snake).error.InconsistentIndices?) <==>
              (forall i :: 0 <= i < |vs| ==> WellFormed(vs[i])) && 0 < ExplicitIndexCount(vs) < |vs|
    ensures Resolution(vs, snake).Err? && Resolution(vs, snake).error.InconsistentIndices? ==>
              Resolution(vs, snake).error == InconsistentIndices(ExplicitIndexCount(vs), |vs|)
  {
    ExplicitAllCorrect(vs);
    AllWellFormed(vs);
    if ExplicitAll(vs).Err? {
      var i :| 0 <= i < |vs| && ExplicitOf(vs[i]) == Err(ExplicitAll(vs).error);
      ExplicitOfCorrect(vs[i]);
    } else {
      CountMatches(vs);
    }
  }

  /**
   * The first variant that is not well formed decides the failure: a parse
   * error when its `sem` list does not parse (whatever duplicates it holds),
   * otherwise a duplicate of a kind that it sets twice.
   */
  lemma FirstFault(vs: seq<Variant>, snake: string -> string, i: nat)
    requires i < |vs| && !WellFormed(vs[i])
    requires forall j :: 0 <= j < i ==> WellFormed(vs[j])
    ensures Resolution(vs, snake).Err?
    ensures ParseFails(vs[i]) ==> Resolution(vs, snake).error == ParseError(vs[i].ident)
    ensures !ParseFails(vs[i]) ==>
              Resolution(vs, snake).error.Duplicate? && Resolution(vs, snake).error.variant == vs[i].ident &&
              SemCount(vs[i], Resolution(vs, snake).error.kind) >= 2
  {
    ExplicitAllCorrect(vs);
    ExplicitOfCorrect(vs[i]);
    var i' :| 0 <= i' < |vs| && ExplicitOf(vs[i']) == Err(ExplicitAll(vs).error) &&
              forall j :: 0 <= j < i' ==> ExplicitOf(vs[j]).Ok?;
    if i' < i {
      ExplicitOfCorrect(vs[i']);
    }
  }

  /**
   * On success: one entry per variant, in declaration order; an explicit name
   * is used verbatim, otherwise the snake-case form of the identifier.
   */
  lemma ResolvedNames(vs: seq<Variant>, snake: string -> string)
    requires Resolution(vs, snake).Ok?
    ensures |Resolution(vs, snake).value| == |vs|
    ensures forall i :: 0 <= i < |vs| ==> Resolution(vs, snake).value[i].ident == vs[i].ident
    ensures forall i, s :: 0 <= i < |vs| && SemHas(vs[i], Name(s)) ==> Resolution(vs, snake).value[i].name == s
    ensures forall i :: 0 <= i < |vs| && SemCount(vs[i], NameKind) == 0 ==>
              Resolution(vs, snake).value[i].name == snake(vs[i].ident)
  {
    ExplicitAllCorrect(vs);
    var es := ExplicitAll(vs).value;
    forall i | 0 <= i < |vs|
      ensures SemCount(vs[i], NameKind) == 0 ==> es[i].name.None?
      ensures forall s :: SemHas(vs[i], Name(s)) ==> es[i].name == Some(s)
    {
      ExplicitOfCorrect(vs[i]);
    }
  }

  /**
   * On success: an explicit index is used verbatim, otherwise the position
   * truncated to a byte (`k as u8`).
   */
  lemma ResolvedIndices(vs: seq<Variant>, snake: string -> string)
    requires Resolution(vs, snake).Ok?
    ensures |Resolution(vs, snake).value| == |vs|
    ensures forall i, n: nat :: 0 <= i < |vs| && SemHas(vs[i], Index(n)) ==> Resolution(vs, snake).value[i].index == n
    ensures forall i :: 0 <= i < |vs| && !HasExplicitIndex(vs[i]) ==> Resolution(vs, snake).value[i].index == i % 256
  {
    ExplicitAllCorrect(vs);
    var es := ExplicitAll(vs).value;
    forall i | 0 <= i < |vs|
      ensures !HasExplicitIndex(vs[i]) ==> es[i].index.None?
      ensures forall n: nat :: SemHas(vs[i], Index(n)) ==> es[i].index == Some(n)
    {
      ExplicitOfCorrect(vs[i]);
    }
  }

  /**
   * On success the indices are all explicit or all positional: either every
   * variant carries an `index` annotation, or every index is its position
   * modulo 256.
   */
  lemma IndicesAllOrNothing(vs: seq<Variant>, snake: string -> string)
    requires Resolution(vs, snake).Ok?
    ensures (forall i :: 0 <= i < |vs| ==> HasExplicitIndex(vs[i])) ||
            (forall i :: 0 <= i < |vs| ==> Resolution(vs, snake).value[i].index == i % 256)
  {
    ResolutionOk(vs, snake);
    CountWhereExtremes(vs, HasExplicitIndex);
    ResolvedIndices(vs, snake);
  }

  /** Attributes with another path before the first `sem` one change nothing. */
  lemma SkipsOtherAttributes(id: string, others: seq<Attribute>, attrs: seq<Attribute>)
    requires forall j :: 0 <= j < |others| ==> !IsSem(others[j].path)
    ensures ExplicitOf(Variant(id, others + attrs)) == ExplicitOf(Variant(id, attrs))
  {
    var all := others + attrs;
    FirstSemCorrect(attrs);
    FirstSemCorrect(all);
    assert forall j :: 0 <= j < |attrs| ==> all[|others| + j] == attrs[j];
    match FirstSem(attrs)
    case None =>
      assert FirstSem(all).None?;
    case Some(j) =>
      assert FirstSem(all) == Some(|others| + j);
  }

  /** Attributes after the first `sem` one, including further `sem` ones, are never read. */
  lemma IgnoresLaterAttributes(id: string, attrs: seq<Attribute>, later: seq<Attribute>)
    requires FirstSem(attrs).Some?
    ensures ExplicitOf(Variant(id, attrs + later)) == ExplicitOf(Variant(id, attrs))
  {
    var all := attrs + later;
    FirstSemCorrect(attrs);
    FirstSemCorrect(all);
    var j := FirstSem(attrs).value;
    assert all[j] == attrs[j];
    assert FirstSem(all) == Some(j);
  }
}
