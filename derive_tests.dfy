/**
 * The derive tests of the repository (semantics/tests/derive.rs), and the
 * failures the macro reports, as facts about `Resolution`. The snake-case
 * conversion is a parameter; each lemma assumes only the conversions it uses.
 */
module DeriveTests {
  import opened Wrappers
  import opened Annotations
  import opened Resolver
  import ResolverProperties
  import Generated

  /** `#[sem(...)]` with the given entries. */
  function Sem(items: seq<RawAnnot>): Attribute {
    Attribute(AttrPath(false, ["sem"]), Parenthesized(items))
  }

  function NameIs(s: string): RawAnnot { RawAnnot("name", Str(s)) }

  function IndexIs(n: nat): RawAnnot { RawAnnot("index", Int(n)) }

  /** A list whose every entry classifies parses to those annotations. */
  lemma Parses(items: seq<RawAnnot>, annots: seq<Annotation>)
    requires |items| == |annots| && forall i :: 0 <= i < |items| ==> ParseAnnotation(items[i]) == Some(annots[i])
    ensures ParseAnnotations(Parenthesized(items)) == Some(annots)
  {
    Annotations.ParseListCorrect(items);
    assert ParseList(items).value == annots;
  }

  /** A variant whose only attribute is `#[sem(items)]`, a list that parses and absorbs to `e`. */
  lemma OneSem(id: string, items: seq<RawAnnot>, annots: seq<Annotation>, e: Explicit)
    requires |items| == |annots| && forall i :: 0 <= i < |items| ==> ParseAnnotation(items[i]) == Some(annots[i])
    requires Collect(annots) == Got(e)
    ensures ExplicitOf(Variant(id, [Sem(items)])) == Ok(e)
  {
    Parses(items, annots);
    assert FirstSem([Sem(items)]) == Some(0);
  }

  /** Absorbing two annotations, one after the other. */
  lemma CollectTwo(x: Annotation, y: Annotation)
    ensures Collect([x, y]) == match Absorb(Explicit(None, None), x)
                               case Dup(k) => Dup(k)
                               case Got(e) => Absorb(e, y)
  {
    assert [x, y][..1] == [x];
    assert [x][..0] == [];
    assert Collect([x]) == Absorb(Explicit(None, None), x);
  }

  /** A variant whose only attribute is `#[sem(name = s, index = n)]`. */
  lemma NameAndIndex(id: string, s: string, n: nat)
    ensures ExplicitOf(Variant(id, [Sem([NameIs(s), IndexIs(n)])])) == Ok(Explicit(Some(s), Some(n)))
  {
    CollectTwo(Name(s), Index(n));
    OneSem(id, [NameIs(s), IndexIs(n)], [Name(s), Index(n)], Explicit(Some(s), Some(n)));
  }

  /** A variant whose only attribute is `#[sem(index = n)]`. */
  lemma IndexOnly(id: string, n: nat)
    ensures ExplicitOf(Variant(id, [Sem([IndexIs(n)])])) == Ok(Explicit(None, Some(n)))
  {
    assert [Index(n)][..0] == [];
    OneSem(id, [IndexIs(n)], [Index(n)], Explicit(None, Some(n)));
  }

  /** When every variant yields its entry of `es`, so does the whole pass. */
  lemma AllYield(vs: seq<Variant>, es: seq<Explicit>)
    requires |es| == |vs| && forall i :: 0 <= i < |vs| ==> ExplicitOf(vs[i]) == Ok(es[i])
    ensures ExplicitAll(vs) == Ok(es)
  {
    ResolverProperties.ExplicitAllCorrect(vs);
    assert ExplicitAll(vs).value == es;
  }

  /** A derivation whose variants each yield `es` and whose indices are all or nothing succeeds. */
  lemma Resolves(vs: seq<Variant>, es: seq<Explicit>, snake: string -> string)
    requires |es| == |vs| && forall i :: 0 <= i < |vs| ==> ExplicitOf(vs[i]) == Ok(es[i])
    requires CountExplicit(es) == 0 || CountExplicit(es) == |vs|
    ensures Resolution(vs, snake) == Ok(seq(|vs|, i requires 0 <= i < |vs| => ResolveOne(vs[i], i, es[i], snake)))
  {
    AllYield(vs, es);
  }

  /** `Resolves` for three variants, with the arms written out. */
  lemma ResolvesThree(vs: seq<Variant>, es: seq<Explicit>, snake: string -> string)
    requires |vs| == 3 && |es| == 3
    requires ExplicitOf(vs[0]) == Ok(es[0]) && ExplicitOf(vs[1]) == Ok(es[1]) && ExplicitOf(vs[2]) == Ok(es[2])
    requires CountExplicit(es) == 0 || CountExplicit(es) == 3
    ensures Resolution(vs, snake) ==
            Ok([ResolveOne(vs[0], 0, es[0], snake), ResolveOne(vs[1], 1, es[1], snake), ResolveOne(vs[2], 2, es[2], snake)])
  {
    Resolves(vs, es, snake);
    var arms := seq(|vs|, i requires 0 <= i < |vs| => ResolveOne(vs[i], i, es[i], snake));
    assert arms == [arms[0], arms[1], arms[2]];
  }

  /** `Resolves` for two variants, with the arms written out. */
  lemma ResolvesTwo(vs: seq<Variant>, es: seq<Explicit>, snake: string -> string)
    requires |vs| == 2 && |es| == 2
    requires ExplicitOf(vs[0]) == Ok(es[0]) && ExplicitOf(vs[1]) == Ok(es[1])
    requires CountExplicit(es) == 0 || CountExplicit(es) == 2
    ensures Resolution(vs, snake) == Ok([ResolveOne(vs[0], 0, es[0], snake), ResolveOne(vs[1], 1, es[1], snake)])
  {
    forall i | 0 <= i < |vs|
      ensures ExplicitOf(vs[i]) == Ok(es[i])
    {
      if i == 0 {
      } else {
        assert i == 1;
      }
    }
    Resolves(vs, es, snake);
    var arms := seq(|vs|, i requires 0 <= i < |vs| => ResolveOne(vs[i], i, es[i], snake));
    assert arms == [arms[0], arms[1]];
  }

  /** With no index in any of them, the counter stays at zero. */
  lemma {:induction false} CountNone(es: seq<Explicit>)
    requires forall i :: 0 <= i < |es| ==> es[i].index.None?
    ensures CountExplicit(es) == 0
  {
    if es != [] {
      CountNone(es[..|es| - 1]);
    }
  }

  /** With an index in each of them, the counter reaches their number. */
  lemma {:induction false} CountAll(es: seq<Explicit>)
    requires forall i :: 0 <= i < |es| ==> es[i].index.Some?
    ensures CountExplicit(es) == |es|
  {
    if es != [] {
      CountAll(es[..|es| - 1]);
    }
  }

  /** `enum VertexPosition { Position, Normal, Color }`: snake-case names, positional indices. */
  lemma VertexPosition(snake: string -> string)
    requires snake("Position") == "position" && snake("Normal") == "normal" && snake("Color") == "color"
    ensures Resolution([Variant("Position", []), Variant("Normal", []), Variant("Color", [])], snake) ==
            Ok([Resolved("Position", "position", 0), Resolved("Normal", "normal", 1), Resolved("Color", "color", 2)])
  {
    var vs := [Variant("Position", []), Variant("Normal", []), Variant("Color", [])];
    var none := Explicit(None, None);
    var es := [none, none, none];
    assert ExplicitOf(vs[0]) == Ok(es[0]);
    assert ExplicitOf(vs[1]) == Ok(es[1]);
    assert ExplicitOf(vs[2]) == Ok(es[2]);
    CountNone(es);
    ResolvesThree(vs, es, snake);
  }

  /** `enum ExplicitName`: explicit names verbatim, the unannotated variant snake-cased. */
  lemma ExplicitName(snake: string -> string)
    requires snake("Nothing") == "nothing"
    ensures Resolution([Variant("JustFoo", [Sem([NameIs("foo")])]),
                        Variant("JustBar", [Sem([NameIs("bar")])]),
                        Variant("Nothing", [])], snake) ==
            Ok([Resolved("JustFoo", "foo", 0), Resolved("JustBar", "bar", 1), Resolved("Nothing", "nothing", 2)])
  {
    var vs := [Variant("JustFoo", [Sem([NameIs("foo")])]),
               Variant("JustBar", [Sem([NameIs("bar")])]),
               Variant("Nothing", [])];
    var es := [Explicit(Some("foo"), None), Explicit(Some("bar"), None), Explicit(None, None)];
    assert ExplicitOf(vs[0]) == Ok(es[0]);
    assert ExplicitOf(vs[1]) == Ok(es[1]);
    assert ExplicitOf(vs[2]) == Ok(es[2]);
    CountNone(es);
    ResolvesThree(vs, es, snake);
  }

  /**
   * `enum ExplicitIndex`: explicit indices verbatim, whatever the positions;
   * the names are the snake-case forms, whatever the conversion gives.
   */
  lemma ExplicitIndex(snake: string -> string)
    ensures Resolution([Variant("Just14", [Sem([IndexIs(14)])]),
                        Variant("Just7", [Sem([IndexIs(7)])]),
                        Variant("Just0", [Sem([IndexIs(0)])])], snake) ==
            Ok([Resolved("Just14", snake("Just14"), 14), Resolved("Just7", snake("Just7"), 7), Resolved("Just0", snake("Just0"), 0)])
  {
    var vs := [Variant("Just14", [Sem([IndexIs(14)])]),
               Variant("Just7", [Sem([IndexIs(7)])]),
               Variant("Just0", [Sem([IndexIs(0)])])];
    var es := [Explicit(None, Some(14)), Explicit(None, Some(7)), Explicit(None, Some(0))];
    assert ExplicitOf(vs[0]) == Ok(es[0]);
    assert ExplicitOf(vs[1]) == Ok(es[1]);
    assert ExplicitOf(vs[2]) == Ok(es[2]);
    CountAll(es);
    ResolvesThree(vs, es, snake);
  }

  /**
   * `enum ExplicitNameAndIndex`: a name and an index in one list are both
   * taken; `Nothing0` gets its snake-case name and its explicit index.
   */
  lemma ExplicitNameAndIndex(snake: string -> string)
    requires snake("Nothing0") == "nothing_0"
    ensures Resolution([Variant("JustFoo14", [Sem([NameIs("foo"), IndexIs(14)])]),
                        Variant("JustBar7", [Sem([NameIs("bar"), IndexIs(7)])]),
                        Variant("Nothing0", [Sem([IndexIs(0)])])], snake) ==
            Ok([Resolved("JustFoo14", "foo", 14), Resolved("JustBar7", "bar", 7), Resolved("Nothing0", "nothing_0", 0)])
  {
    var vs := [Variant("JustFoo14", [Sem([NameIs("foo"), IndexIs(14)])]),
               Variant("JustBar7", [Sem([NameIs("bar"), IndexIs(7)])]),
               Variant("Nothing0", [Sem([IndexIs(0)])])];
    var es := [Explicit(Some("foo"), Some(14)), Explicit(Some("bar"), Some(7)), Explicit(None, Some(0))];
    NameAndIndex("JustFoo14", "foo", 14);
    NameAndIndex("JustBar7", "bar", 7);
    IndexOnly("Nothing0", 0);
    CountAll(es);
    ResolvesThree(vs, es, snake);
  }

  /** The generated `name()` and `index()` of `ExplicitNameAndIndex`, as its test calls them. */
  lemma ExplicitNameAndIndexLookups(snake: string -> string)
    requires snake("Nothing0") == "nothing_0"
    ensures var r := Resolution([Variant("JustFoo14", [Sem([NameIs("foo"), IndexIs(14)])]),
                                 Variant("JustBar7", [Sem([NameIs("bar"), IndexIs(7)])]),
                                 Variant("Nothing0", [Sem([IndexIs(0)])])], snake);
            r.Ok? &&
            Generated.NameOf(r.value, "JustFoo14") == Some("foo") && Generated.IndexOf(r.value, "JustFoo14") == Some(14) &&
            Generated.NameOf(r.value, "JustBar7") == Some("bar") && Generated.IndexOf(r.value, "JustBar7") == Some(7) &&
            Generated.NameOf(r.value, "Nothing0") == Some("nothing_0") && Generated.IndexOf(r.value, "Nothing0") == Some(0)
  {
    ExplicitNameAndIndex(snake);
  }

  /** Setting `name` twice in one list aborts the whole derivation, with no partial output. */
  lemma DuplicateName(snake: string -> string)
    ensures Resolution([Variant("A", []), Variant("B", [Sem([NameIs("x"), NameIs("y")])]), Variant("C", [])], snake) ==
            Err(Duplicate("B", NameKind))
  {
    var vs := [Variant("A", []), Variant("B", [Sem([NameIs("x"), NameIs("y")])]), Variant("C", [])];
    var l := [NameIs("x"), NameIs("y")];
    Parses(l, [Name("x"), Name("y")]);
    CollectTwo(Name("x"), Name("y"));
    assert ExplicitOf(vs[1]) == Err(Duplicate("B", NameKind));
    AllYield(vs[..1], [Explicit(None, None)]);
    AbortAt(vs, 1, snake);
  }

  /** A list is parsed whole before it is absorbed: an unknown key after a repeated one is a parse error. */
  lemma ParseErrorBeforeDuplicate(snake: string -> string)
    ensures Resolution([Variant("A", [Sem([IndexIs(1), IndexIs(2), RawAnnot("nmae", Str("a"))])])], snake) ==
            Err(ParseError("A"))
  {
  }

  /** `name = 5` is no name annotation; it is then read as an index annotation, whose key is wrong. */
  lemma NameWithIntegerIsParseError(snake: string -> string)
    ensures Resolution([Variant("A", [Sem([RawAnnot("name", Int(5))])])], snake) == Err(ParseError("A"))
  {
  }

  /** An index on one variant but not on the other fails after the pass, reporting 1 of 2. */
  lemma MixedIndices(snake: string -> string)
    ensures Resolution([Variant("A", [Sem([IndexIs(3)])]), Variant("B", [])], snake) == Err(InconsistentIndices(1, 2))
  {
    var vs := [Variant("A", [Sem([IndexIs(3)])]), Variant("B", [])];
    var es := [Explicit(None, Some(3)), Explicit(None, None)];
    assert ExplicitOf(vs[0]) == Ok(es[0]);
    assert ExplicitOf(vs[1]) == Ok(es[1]);
    AllYield(vs, es);
    assert es[..1] == [Explicit(None, Some(3))];
    assert CountExplicit(es) == 1;
  }

  /**
   * Only the first `sem` attribute is read: one with another path, or with a
   * path of two segments, is skipped, and a later `sem` one is ignored even
   * though it repeats a kind.
   */
  lemma SkippedAttributes()
    ensures var other := Attribute(AttrPath(false, ["doc"]), Malformed);
            var qualified := Attribute(AttrPath(false, ["foo", "sem"]), Malformed);
            ExplicitOf(Variant("A", [other, qualified, Sem([NameIs("x"), IndexIs(1)]), Sem([NameIs("y"), NameIs("z")])])) ==
            Ok(Explicit(Some("x"), Some(1)))
  {
    var other := Attribute(AttrPath(false, ["doc"]), Malformed);
    var qualified := Attribute(AttrPath(false, ["foo", "sem"]), Malformed);
    var s := Sem([NameIs("x"), IndexIs(1)]);
    var later := [Sem([NameIs("y"), NameIs("z")])];
    NameAndIndex("A", "x", 1);
    assert FirstSem([s]) == Some(0);
    ResolverProperties.IgnoresLaterAttributes("A", [s], later);
    ResolverProperties.SkipsOtherAttributes("A", [other, qualified], [s] + later);
    assert [other, qualified, s] + later == [other, qualified] + ([s] + later);
  }

  /**
   * No uniqueness check across variants: two variants may resolve to the same
   * name and index, whatever else their attribute lists hold.
   */
  lemma Collisions(snake: string -> string)
    ensures var other := Attribute(AttrPath(false, ["doc"]), Malformed);
            var qualified := Attribute(AttrPath(false, ["foo", "sem"]), Malformed);
            Resolution([Variant("A", [other, qualified, Sem([NameIs("x"), IndexIs(1)]), Sem([NameIs("y"), NameIs("z")])]),
                        Variant("B", [Sem([NameIs("x"), IndexIs(1)])])], snake) ==
            Ok([Resolved("A", "x", 1), Resolved("B", "x", 1)])
  {
    var other := Attribute(AttrPath(false, ["doc"]), Malformed);
    var qualified := Attribute(AttrPath(false, ["foo", "sem"]), Malformed);
    var vs := [Variant("A", [other, qualified, Sem([NameIs("x"), IndexIs(1)]), Sem([NameIs("y"), NameIs("z")])]),
               Variant("B", [Sem([NameIs("x"), IndexIs(1)])])];
    SkippedAttributes();
    NameAndIndex("B", "x", 1);
    var e := Explicit(Some("x"), Some(1));
    var es := [e, e];
    CountAll(es);
    ResolvesTwo(vs, es, snake);
  }
}
