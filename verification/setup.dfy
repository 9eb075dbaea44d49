/**
 Entity creation shared by the light, select, switch and sensor platforms:
 walk a description table in its own order and keep the kinds the device
 offers.
 */
module Setup {
  import opened Values
  import Classes

  /** `[x for x in xs if p(x)]` over the kinds of a description table. */
  function Keep(xs: seq<string>, p: string -> bool): (r: seq<string>)
    ensures |r| <= |xs|
    ensures forall x :: x in r <==> x in xs && p(x)
    decreases |xs|
  {
    if xs == [] then []
    else
      var init := Keep(xs[..|xs| - 1], p);
      assert forall x :: x in xs <==> x in xs[..|xs| - 1] || x == xs[|xs| - 1];
      if p(xs[|xs| - 1]) then init + [xs[|xs| - 1]] else init
  }

  /**
   The kept items come in table order: filtering a concatenation filters
   each part.
   */
  lemma {:induction false} KeepConcat(xs: seq<string>, ys: seq<string>, p: string -> bool)
    ensures Keep(xs + ys, p) == Keep(xs, p) + Keep(ys, p)
    decreases |ys|
  {
    if ys != [] {
      var ys' := ys[..|ys| - 1];
      assert (xs + ys)[..|xs + ys| - 1] == xs + ys';
      KeepConcat(xs, ys', p);
    } else {
      assert xs + ys == xs;
    }
  }

  /** When every item passes, the selection is the whole table. */
  lemma {:induction false} KeepAll(xs: seq<string>, p: string -> bool)
    requires forall i :: 0 <= i < |xs| ==> p(xs[i])
    ensures Keep(xs, p) == xs
    decreases |xs|
  {
    if xs != [] {
      var init := xs[..|xs| - 1];
      KeepAll(init, p);
      assert init + [xs[|xs| - 1]] == xs;
    }
  }

  /** A table without repeats gives a selection without repeats. */
  lemma {:induction false} KeepDistinct(xs: seq<string>, p: string -> bool)
    requires forall i, j :: 0 <= i < j < |xs| ==> xs[i] != xs[j]
    ensures forall i, j :: 0 <= i < j < |Keep(xs, p)| ==> Keep(xs, p)[i] != Keep(xs, p)[j]
    decreases |xs|
  {
    if xs != [] {
      var init := xs[..|xs| - 1];
      KeepDistinct(init, p);
      assert xs[|xs| - 1] !in init;
    }
  }

  /**
   `async_setup_entry` of the light, select and switch platforms: an
   unsupported model creates nothing; otherwise one entity per table kind
   that some class of the model's MRO lists in its `AVAILABLE_*`.
   */
  function SetupKinds(types: seq<string>, modelToClass: map<string, Classes.Hierarchy<seq<string>>>, model: string): (r: seq<string>)
    requires forall m :: m in modelToClass ==> Classes.WellFormed(modelToClass[m])
    ensures model !in modelToClass ==> r == []
    ensures forall kind :: kind in r <==> model in modelToClass && kind in types && Listed(modelToClass[model], kind)
  {
    if model !in modelToClass then []
    else
      var available := Classes.CollectList(modelToClass[model]);
      ListedAll(modelToClass[model]);
      Keep(types, k => k in available)
  }

  /** Some class of the MRO lists the kind in its own `AVAILABLE_*`. */
  ghost predicate Listed(h: Classes.Hierarchy<seq<string>>, kind: string)
  {
    exists j :: 0 <= j < |h| && h[j].own.Some? && kind in h[j].own.value
  }

  /** The collected `AVAILABLE_*` lists hold exactly the kinds some class lists. */
  lemma ListedAll(h: Classes.Hierarchy<seq<string>>)
    requires Classes.WellFormed(h)
    ensures forall kind :: kind in Classes.CollectList(h) <==> Listed(h, kind)
  {
    forall kind ensures kind in Classes.CollectList(h) <==> Listed(h, kind) {
      Classes.CollectListMember(h, kind);
    }
  }
}
