/** What measuring source units amounts to on the types that `kotlin_source_parser.py` finds in a text. */
module KotlinUnits {
  import opened Results
  import opened KotlinSource
  import SourceUnits

  function ExtentOf(d: Declaration): SourceUnits.Range { SourceUnits.Range(d.line, d.end) }

  function TypeExtents(ds: seq<Declaration>): seq<SourceUnits.Range> {
    if ds == [] then []
    else
      var last := ds[|ds| - 1];
      TypeExtents(ds[..|ds| - 1]) + if last.isType then [ExtentOf(last)] else []
  }

  /** A later type lies inside an earlier one, or starts no earlier than that one ends. */
  predicate Follows(earlier: Declaration, later: Declaration) {
    earlier.end <= later.line || (earlier.line <= later.line && later.end <= earlier.end)
  }

  ghost predicate TypesFollow(ds: seq<Declaration>) {
    && (forall d :: d in ds ==> Lawful(d))
    && forall a, b :: 0 <= a < b < |ds| && ds[a].isType && ds[b].isType ==> Follows(ds[a], ds[b])
  }

  lemma {:induction false} ExtentsAreOfTypes(ds: seq<Declaration>, r: SourceUnits.Range)
    requires r in TypeExtents(ds)
    ensures exists k :: 0 <= k < |ds| && ds[k].isType && ExtentOf(ds[k]) == r
  {
    var front, last := ds[..|ds| - 1], ds[|ds| - 1];
    if r in TypeExtents(front) {
      ExtentsAreOfTypes(front, r);
      var k :| 0 <= k < |front| && front[k].isType && ExtentOf(front[k]) == r;
      assert ds[k] == front[k];
    } else {
      assert last.isType && ExtentOf(last) == r;
    }
  }

  lemma {:induction false} ExtentsFollow(ds: seq<Declaration>)
    requires TypesFollow(ds)
    ensures SourceUnits.Following(TypeExtents(ds))
  {
    if ds != [] {
      var front, last := ds[..|ds| - 1], ds[|ds| - 1];
      ExtentsFollow(front);
      assert last in ds && Lawful(last);
      var before := TypeExtents(front);
      forall i | 0 <= i < |before| && last.isType
        ensures SourceUnits.Inside(ExtentOf(last), before[i]) || before[i].end <= ExtentOf(last).start
      {
        ExtentsAreOfTypes(front, before[i]);
        var k :| 0 <= k < |front| && front[k].isType && ExtentOf(front[k]) == before[i];
        assert ds[k] == front[k] && Follows(ds[k], ds[|ds| - 1]);
      }
    }
  }

  ghost predicate OptionsFollow(options: seq<Option<Declaration>>) {
    && (forall i :: 0 <= i < |options| && options[i].Some? ==> Lawful(options[i].value))
    && forall i, k :: 0 <= i < k < |options| && options[i].Some? && options[k].Some? ==>
         options[i].value.isType && options[k].value.isType ==> Follows(options[i].value, options[k].value)
  }

  lemma {:induction false} PresentFollow(options: seq<Option<Declaration>>)
    requires OptionsFollow(options)
    ensures TypesFollow(Present(options))
    ensures forall d :: d in Present(options) ==> Some(d) in options
  {
    if options != [] {
      var front, last := options[..|options| - 1], options[|options| - 1];
      PresentFollow(front);
      assert options == front + [last];
      var before := Present(front);
      forall a | 0 <= a < |before| && last.Some? && before[a].isType && last.value.isType
        ensures Follows(before[a], last.value)
      {
        assert before[a] in before;
        var i :| 0 <= i < |front| && front[i] == Some(before[a]);
        assert options[i] == Some(before[a]);
      }
    }
  }

  lemma DeclaredTypesFollow(c: Classes, stream: seq<Token>, i: nat, k: nat)
    requires LinesInOrder(stream) && i < k < |stream|
    requires DeclaredAt(c, stream, i).Some? && DeclaredAt(c, stream, k).Some?
    requires DeclaredAt(c, stream, i).value.isType && DeclaredAt(c, stream, k).value.isType
    ensures Follows(DeclaredAt(c, stream, i).value, DeclaredAt(c, stream, k).value)
  {
    TypeLinesNest(c, stream, i, k);
  }

  /** For every text, measuring each found type without its nested types counts every covered line, and counts no more
      than one line again for each type that starts where an earlier one ends, and the lines of repeated extents. */
  lemma KotlinSizesNearlyPartition(c: Classes, text: string)
    requires Sound(c)
    ensures var types := TypeExtents(Present(AllDeclared(c, TokensFrom(c, Clean(text), 0))));
            && |SourceUnits.Lines(types)| <= SourceUnits.TotalOwned(types, |types|)
            && SourceUnits.TotalOwned(types, |types|) <=
                 |SourceUnits.Lines(types)| + SourceUnits.Surplus(types, |types|)
  {
    var stream := TokensFrom(c, Clean(text), 0);
    var all := AllDeclared(c, stream);
    TokensAreSource(c, text);
    forall i: nat | i < |all| && all[i].Some? ensures Lawful(all[i].value) { DeclarationIsLawful(c, stream, i); }
    forall i: nat, k: nat | i < k < |all| && all[i].Some? && all[k].Some? && all[i].value.isType && all[k].value.isType
      ensures Follows(all[i].value, all[k].value)
    {
      DeclaredTypesFollow(c, stream, i, k);
    }
    PresentFollow(all);
    ExtentsFollow(Present(all));
    SourceUnits.SizesExceedUnionBySurplus(TypeExtents(Present(all)));
  }
}
