/**
 * The `Sortable` trait of an Eloquent model: the `sort` query scope, which
 * turns requested sort tokens (`name`, `-created_at`) into ORDER BY
 * directives filtered by the model's allow-list, and the `isSortable` test.
 */
module Sortable {
  import opened Php
  import opened Sequences

  datatype Direction = Asc | Desc

  /** One `orderBy(column, direction)` call on the query builder. */
  datatype Directive = Directive(column: string, direction: Direction)

  /**
   * The sort configuration of a model: `$sortable`, its allow-list of base
   * field names, and `$defaultSort`, the tokens used when none requested
   * survives (an undeclared `$defaultSort` is the empty list).
   */
  datatype Model = Model(sortable: seq<string>, defaultSort: seq<string>)

  /** Allow-list entries are bare field names, without a direction prefix. */
  predicate Bare(sortable: seq<string>) {
    forall i :: 0 <= i < |sortable| ==> !StartsWithDash(sortable[i])
  }

  /**
   * `isSortable($field)`: false for an empty allow-list; otherwise whether the
   * field, with every leading '-' removed, is on the allow-list.
   */
  predicate IsSortable(sortable: seq<string>, field: string) {
    if |sortable| == 0 then false else StripDashes(field) in sortable
  }

  /**
   * An independent reading of `isSortable`: the field is some run of '-'
   * followed by an allow-listed name that does not itself start with '-'.
   */
  lemma {:induction false} IsSortableMeaning(sortable: seq<string>, field: string)
    ensures IsSortable(sortable, field) <==>
      exists n :: 0 <= n <= |field|
        && (forall j :: 0 <= j < n ==> field[j] == '-')
        && !StartsWithDash(field[n..])
        && field[n..] in sortable
  {
    StripDashesSuffix(field);
    var m := |field| - |StripDashes(field)|;
    if IsSortable(sortable, field) {
      assert field[m..] == StripDashes(field);
    }
    forall n | 0 <= n <= |field|
        && (forall j :: 0 <= j < n ==> field[j] == '-')
        && !StartsWithDash(field[n..])
        && field[n..] in sortable
      ensures IsSortable(sortable, field)
    {
      assert field[n..] == StripDashes(field);
    }
  }

  /** The sign of a token never changes whether it is sortable. */
  lemma IsSortableIgnoresSign(sortable: seq<string>, field: string)
    ensures IsSortable(sortable, "-" + field) == IsSortable(sortable, field)
  {
  }

  /**
   * The allow-list as `scopeSort` doubles it: the base entries, then
   * '-' + f for each base f in the same order; the loop walks a copy, so it
   * stops with exactly twice as many entries.
   */
  function Extended(sortable: seq<string>): (ext: seq<string>)
    ensures |ext| == 2 * |sortable|
    ensures forall t {:trigger t in ext} :: t in ext <==> t in sortable || (StartsWithDash(t) && t[1..] in sortable)
  {
    var negated := seq(|sortable|, i requires 0 <= i < |sortable| => "-" + sortable[i]);
    var ext := sortable + negated;
    assert forall t :: StartsWithDash(t) && t[1..] in sortable ==> t in negated by {
      forall t | StartsWithDash(t) && t[1..] in sortable ensures t in negated {
        var i :| 0 <= i < |sortable| && sortable[i] == t[1..];
        assert negated[i] == t;
      }
    }
    assert forall t :: t in negated ==> StartsWithDash(t) && t[1..] in sortable by {
      forall t | t in negated ensures StartsWithDash(t) && t[1..] in sortable {
        var i :| 0 <= i < |negated| && negated[i] == t;
        assert t[1..] == sortable[i];
      }
    }
    ext
  }

  /**
   * `array_intersect($xs, $ys)`: the entries of `xs` equal to some entry of
   * `ys`, each as often as in `xs`, in the order of `xs`.
   */
  function Intersect(xs: seq<string>, ys: seq<string>): (r: seq<string>)
    ensures IsSubseq(r, xs)
    ensures forall x :: multiset(r)[x] == if x in ys then multiset(xs)[x] else 0
    ensures forall x :: x in r <==> x in xs && x in ys
  {
    if |xs| == 0 then []
    else
      var init := xs[..|xs| - 1];
      var last := xs[|xs| - 1];
      assert xs == init + [last];
      var r' := Intersect(init, ys);
      if last in ys then
        assert (r' + [last])[..|r'|] == r';
        r' + [last]
      else
        r'
  }

  /** `array_intersect` looks only at which values `ys` holds. */
  lemma {:induction false} IntersectMembershipOnly(xs: seq<string>, ys1: seq<string>, ys2: seq<string>)
    requires forall x :: x in ys1 <==> x in ys2
    ensures Intersect(xs, ys1) == Intersect(xs, ys2)
  {
    if |xs| > 0 {
      IntersectMembershipOnly(xs[..|xs| - 1], ys1, ys2);
    }
  }

  /** Keeping every entry of `xs` gives `xs` back. */
  lemma {:induction false} IntersectAll(xs: seq<string>, ys: seq<string>)
    requires forall x :: x in xs ==> x in ys
    ensures Intersect(xs, ys) == xs
  {
    if |xs| > 0 {
      var init := xs[..|xs| - 1];
      assert xs == init + [xs[|xs| - 1]];
      IntersectAll(init, ys);
    }
  }

  /**
   * The tokens that survive in `scopeSort`: the extended allow-list
   * intersected with the request, or with `$defaultSort` when that is empty
   * and a default is declared.
   */
  function Selection(m: Model, requested: seq<string>): (sel: seq<string>)
    ensures |m.sortable| == 0 ==> sel == []
    ensures IsSubseq(sel, Extended(m.sortable))
  {
    if |m.sortable| == 0 then []
    else
      var ext := Extended(m.sortable);
      var fromRequest := Intersect(ext, requested);
      if |fromRequest| == 0 && |m.defaultSort| != 0 then Intersect(ext, m.defaultSort)
      else fromRequest
  }

  /** How `scopeSort` turns one token into an `orderBy` call. */
  function ToDirective(token: string, slug: string -> string): Directive {
    Directive(slug(StripDashes(token)), if StartsWithDash(token) then Desc else Asc)
  }

  function Directives(tokens: seq<string>, slug: string -> string): seq<Directive> {
    seq(|tokens|, i requires 0 <= i < |tokens| => ToDirective(tokens[i], slug))
  }

  /** The directives `scopeSort` adds to the query, in the order it adds them. */
  function Resolve(m: Model, requested: seq<string>, slug: string -> string): seq<Directive> {
    Directives(Selection(m, requested), slug)
  }

  /**
   * Where the selected tokens come from: the request when any requested token
   * is on the extended list, otherwise the default sort; in both cases
   * exactly the extended-list entries found there.
   */
  lemma SelectionSource(m: Model, requested: seq<string>)
    ensures (exists t :: t in requested && t in Extended(m.sortable)) ==>
      forall t :: t in Selection(m, requested) <==> t in Extended(m.sortable) && t in requested
    ensures (forall t :: t in requested ==> t !in Extended(m.sortable)) ==>
      forall t :: t in Selection(m, requested) <==> t in Extended(m.sortable) && t in m.defaultSort
  {
  }

  /** Neither the order nor the repetitions of the request matter. */
  lemma RequestOrderIrrelevant(m: Model, r1: seq<string>, r2: seq<string>, slug: string -> string)
    requires forall x :: x in r1 <==> x in r2
    ensures Resolve(m, r1, slug) == Resolve(m, r2, slug)
  {
    IntersectMembershipOnly(Extended(m.sortable), r1, r2);
  }

  /** Requesting every token yields the whole extended list, in its order. */
  lemma RequestEverything(m: Model, requested: seq<string>)
    requires |m.sortable| > 0
    requires forall t :: t in Extended(m.sortable) ==> t in requested
    ensures Selection(m, requested) == Extended(m.sortable)
  {
    IntersectAll(Extended(m.sortable), requested);
  }

  /** Once a descending token appears, every later one is descending too. */
  predicate AscendingFirst(tokens: seq<string>) {
    forall i, j :: 0 <= i < j < |tokens| && StartsWithDash(tokens[i]) ==> StartsWithDash(tokens[j])
  }

  lemma {:induction false} SubseqAscendingFirst(r: seq<string>, xs: seq<string>)
    requires IsSubseq(r, xs) && AscendingFirst(xs)
    ensures AscendingFirst(r)
    decreases |xs|
  {
    if |r| > 0 {
      var xs' := xs[..|xs| - 1];
      assert AscendingFirst(xs');
      if r[|r| - 1] == xs[|xs| - 1] {
        var r' := r[..|r| - 1];
        SubseqAscendingFirst(r', xs');
        SubseqMembers(r', xs');
        forall i, j | 0 <= i < j < |r| && StartsWithDash(r[i]) ensures StartsWithDash(r[j]) {
          if j == |r| - 1 {
            assert r[i] in xs' by { assert r[i] == r'[i]; }
            var k :| 0 <= k < |xs'| && xs'[k] == r[i];
            assert xs[k] == r[i];
          } else {
            assert r[i] == r'[i] && r[j] == r'[j];
          }
        }
      } else {
        SubseqAscendingFirst(r, xs');
      }
    }
  }

  /**
   * With a bare allow-list the directives run in allow-list order with every
   * ascending one before every descending one, whatever order was requested.
   */
  lemma AscendingBeforeDescending(m: Model, requested: seq<string>)
    requires Bare(m.sortable)
    ensures AscendingFirst(Selection(m, requested))
  {
    var ext := Extended(m.sortable);
    var n := |m.sortable|;
    assert ext[..n] == m.sortable;
    forall i, j | 0 <= i < j < |ext| && StartsWithDash(ext[i]) ensures StartsWithDash(ext[j]) {
      assert i >= n;
      assert ext[j] == "-" + m.sortable[j - n];
    }
    SubseqAscendingFirst(Selection(m, requested), ext);
  }

  /**
   * With a bare allow-list without repetitions no token is selected twice,
   * however often it was requested.
   */
  lemma SelectionDistinct(m: Model, requested: seq<string>)
    requires Bare(m.sortable) && Distinct(m.sortable)
    ensures forall t :: multiset(Selection(m, requested))[t] <= 1
  {
    var ext := Extended(m.sortable);
    var n := |m.sortable|;
    assert ext[..n] == m.sortable;
    forall i, j | 0 <= i < j < |ext| ensures ext[i] != ext[j] {
      if j < n {
        assert ext[i] == m.sortable[i] && ext[j] == m.sortable[j];
      } else if i < n {
        assert ext[i] == m.sortable[i] && ext[j] == "-" + m.sortable[j - n];
        assert !StartsWithDash(ext[i]);
      } else {
        assert ext[i][1..] == m.sortable[i - n] && ext[j][1..] == m.sortable[j - n];
      }
    }
    DistinctCount(ext);
  }

  /** Every token `scopeSort` selects passes `isSortable`. */
  lemma SelectedAreSortable(m: Model, requested: seq<string>)
    requires Bare(m.sortable)
    ensures forall t :: t in Selection(m, requested) ==> IsSortable(m.sortable, t)
  {
    forall t | t in Selection(m, requested) ensures IsSortable(m.sortable, t) {
      SubseqMembers(Selection(m, requested), Extended(m.sortable));
      if t in m.sortable {
        assert !StartsWithDash(t);
      } else {
        assert StripDashes(t) == StripDashes(t[1..]);
      }
    }
  }

  /**
   * Conversely, a requested token with at most one leading '-' that passes
   * `isSortable` is selected.
   */
  lemma SortableRequestIsSelected(m: Model, requested: seq<string>, t: string)
    requires Bare(m.sortable)
    requires t in requested && IsSortable(m.sortable, t)
    requires !(StartsWithDash(t) && StartsWithDash(t[1..]))
    ensures t in Selection(m, requested)
  {
    if StartsWithDash(t) {
      assert StripDashes(t) == t[1..];
    }
    assert t in Extended(m.sortable);
  }

  /**
   * `isSortable` and `scopeSort` part ways on doubled signs: "--f" is
   * sortable for an allowed f, yet a request for it alone sorts nothing
   * when no default sort is declared.
   */
  lemma DoubleDashSortableButIgnored(sortable: seq<string>, f: string, slug: string -> string)
    requires Bare(sortable) && f in sortable
    ensures IsSortable(sortable, "--" + f)
    ensures Resolve(Model(sortable, []), ["--" + f], slug) == []
  {
    var t := "--" + f;
    assert IsSortable(sortable, t) by {
      assert t[1..] == "-" + f && t[1..][1..] == f;
      assert StripDashes(t) == StripDashes(t[1..]) == StripDashes(f) == f;
    }
    assert Selection(Model(sortable, []), [t]) == [] by {
      assert t !in Extended(sortable) by {
        assert t[1..][0] == '-';
      }
    }
  }

  /** A one-entry allow-list doubles to the entry and its negation. */
  lemma ExtendedSingleton(t: string)
    ensures Extended([t]) == [t, "-" + t]
  {
  }

  /** Intersecting `[t, "-" + t]` with `[t]` keeps `t` alone. */
  lemma IntersectSingleton(t: string)
    ensures Intersect([t, "-" + t], [t]) == [t]
  {
    assert "-" + t !in [t] by {
      assert |"-" + t| != |t|;
    }
    assert [t, "-" + t][..1] == [t];
    IntersectAll([t], [t]);
  }

  /**
   * An allow-list entry that already carries a '-' is selected when asked
   * for, yet `isSortable` rejects it, since `ltrim` takes the '-' off first.
   */
  lemma DashedEntrySelectedButNotSortable(f: string)
    requires !StartsWithDash(f)
    ensures Selection(Model(["-" + f], []), ["-" + f]) == ["-" + f]
    ensures !IsSortable(["-" + f], "-" + f)
  {
    var t := "-" + f;
    ExtendedSingleton(t);
    IntersectSingleton(t);
    assert StripDashes(t) == f by {
      assert t[1..] == f;
    }
    assert |f| != |t|;
  }

  /** The directive a selected token `t` yields when `t` is `f` or `-f`. */
  predicate DirectiveFor(t: string, f: string, d: Directive, slug: string -> string) {
    || (t == f && d == Directive(slug(f), Asc))
    || (t == "-" + f && d == Directive(slug(f), Desc))
  }

  /**
   * With a bare allow-list each directive targets the column of an allowed
   * field f: ascending when the selected token is f, descending when it is -f.
   */
  lemma DirectiveTargetsAllowedColumn(m: Model, requested: seq<string>, slug: string -> string, i: int)
    requires Bare(m.sortable)
    requires 0 <= i < |Resolve(m, requested, slug)|
    ensures exists k ::
      && 0 <= k < |m.sortable|
      && DirectiveFor(Selection(m, requested)[i], m.sortable[k], Resolve(m, requested, slug)[i], slug)
  {
    var sel := Selection(m, requested);
    var t := sel[i];
    var d := Resolve(m, requested, slug)[i];
    assert d == ToDirective(t, slug);
    SubseqMembers(sel, Extended(m.sortable));
    assert t in Extended(m.sortable);
    if t in m.sortable {
      var k :| 0 <= k < |m.sortable| && m.sortable[k] == t;
      assert !StartsWithDash(t);
      assert DirectiveFor(t, m.sortable[k], d, slug);
    } else {
      var k :| 0 <= k < |m.sortable| && m.sortable[k] == t[1..];
      assert t == "-" + m.sortable[k];
      assert StripDashes(t) == t[1..] by {
        assert StripDashes(t) == StripDashes(t[1..]);
      }
      assert DirectiveFor(t, m.sortable[k], d, slug);
    }
  }

  /** `f` and `-f` sort the same column, in opposite directions. */
  lemma SameColumnBothDirections(f: string, slug: string -> string)
    requires !StartsWithDash(f)
    ensures ToDirective(f, slug) == Directive(slug(f), Asc)
    ensures ToDirective("-" + f, slug) == Directive(slug(f), Desc)
  {
  }

  /** The Eloquent query builder, reduced to the ORDER BY list it accumulates. */
  class Query {
    var orders: seq<Directive>

    constructor ()
      ensures orders == []
    {
      orders := [];
    }

    /** `$query->orderBy($column, $direction)`. */
    method OrderBy(column: string, direction: Direction)
      modifies this
      ensures orders == old(orders) + [Directive(column, direction)]
    {
      orders := orders + [Directive(column, direction)];
    }
  }

  /**
   * The doubling loop of `scopeSort`: appends '-' + f for each base entry f
   * of a copy of the allow-list.
   */
  method ExtendAllowList(base: seq<string>) returns (sortable: seq<string>)
    ensures sortable == Extended(base)
  {
    var n := |base|;
    sortable := base;
    for i := 0 to n
      invariant |sortable| == n + i
      invariant sortable[..n] == base
      invariant forall k :: 0 <= k < i ==> sortable[n + k] == "-" + base[k]
    {
      sortable := sortable + ["-" + base[i]];
    }
  }

  /**
   * The selection step of `scopeSort` for a non-empty allow-list: the request intersected with the
   * doubled allow-list, falling back on the default sort.
   */
  method SelectSortingAttributes(m: Model, sortingAttributes: seq<string>) returns (selected: seq<string>)
    requires |m.sortable| > 0
    ensures selected == Selection(m, sortingAttributes)
  {
    var sortable := ExtendAllowList(m.sortable);
    selected := Intersect(sortable, sortingAttributes);
    if |selected| == 0 && |m.defaultSort| != 0 {
      selected := Intersect(sortable, m.defaultSort);
    }
  }

  /**
   * The final loop of `scopeSort`: one `orderBy` per selected token, in order;
   * descending when the token starts with '-', on the slug of the token with
   * its leading dashes removed.
   */
  method ApplyDirectives(query: Query, selected: seq<string>, slug: string -> string)
    modifies query
    ensures query.orders == old(query.orders) + Directives(selected, slug)
  {
    ghost var before := query.orders;
    for i := 0 to |selected|
      invariant |query.orders| == |before| + i
      invariant forall k :: 0 <= k < |before| ==> query.orders[k] == before[k]
      invariant forall k :: 0 <= k < i ==> query.orders[|before| + k] == ToDirective(selected[k], slug)
    {
      var attribute := selected[i];
      var direction := if StartsWithDash(attribute) then Desc else Asc;
      var columnName := StripDashes(attribute);
      query.OrderBy(slug(columnName), direction);
    }
  }

  /**
   * `scopeSort($query, $sortingAttributes)`: appends to the query one
   * ORDER BY per selected token and leaves it alone when nothing survives.
   * `slug` stands for `Str::slug($name, '_')`.
   */
  method ScopeSort(query: Query, m: Model, sortingAttributes: seq<string>, slug: string -> string)
    modifies query
    ensures query.orders == old(query.orders) + Resolve(m, sortingAttributes, slug)
  {
    if |m.sortable| == 0 {
      return;
    }
    var selected := SelectSortingAttributes(m, sortingAttributes);
    if |selected| == 0 {
      return;
    }
    ApplyDirectives(query, selected, slug);
  }
}
