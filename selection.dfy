/** Choosing which icons go into the ICO file: filtering by size, keeping
    one icon per size, and ordering by size. */
module Selection {
  import opened Icons

  /** The distinct sizes among `icons`. */
  function SizeSet(icons: seq<Icon>): set<nat>
  {
    if icons == [] then {} else SizeSet(icons[..|icons| - 1]) + {icons[|icons| - 1].size}
  }

  /** Whether some icon has side `k`. */
  predicate HasSize(icons: seq<Icon>, k: nat)
  {
    exists i :: 0 <= i < |icons| && icons[i].size == k
  }

  /** `SizeSet` holds exactly the sizes that occur. */
  lemma {:induction false} SizeSetMembers(icons: seq<Icon>, k: nat)
    ensures k in SizeSet(icons) <==> HasSize(icons, k)
  {
    if icons != [] {
      var init := icons[..|icons| - 1];
      SizeSetMembers(init, k);
      if HasSize(init, k) {
        var i :| 0 <= i < |init| && init[i].size == k;
        assert icons[i].size == k;
      }
      if HasSize(icons, k) && icons[|icons| - 1].size != k {
        var i :| 0 <= i < |icons| && icons[i].size == k;
        assert init[i].size == k;
      }
    }
  }

  // ---------------------------------------------------------------------
  // filter_icons

  /** The test an icon must pass to be kept: not above the size ceiling and,
      when a whitelist is given, in it. */
  predicate Keep(icon: Icon, includeSizes: Option<set<int>>, maxSize: int)
  {
    icon.size <= maxSize && (includeSizes.None? || icon.size in includeSizes.value)
  }

  /** The kept icons, in their original order. */
  function Filtered(icons: seq<Icon>, includeSizes: Option<set<int>>, maxSize: int): seq<Icon>
  {
    if icons == [] then []
    else
      var init := Filtered(icons[..|icons| - 1], includeSizes, maxSize);
      var last := icons[|icons| - 1];
      if Keep(last, includeSizes, maxSize) then init + [last] else init
  }

  /** `sub` is `s` with some elements left out, the rest in their order. */
  predicate IsSubsequence<T(==)>(sub: seq<T>, s: seq<T>)
  {
    if sub == [] then true
    else if s == [] then false
    else if sub[|sub| - 1] == s[|s| - 1] && IsSubsequence(sub[..|sub| - 1], s[..|s| - 1]) then true
    else IsSubsequence(sub, s[..|s| - 1])
  }

  /** Filtering keeps the order of the icons it keeps. */
  lemma {:induction false} FilteredIsSubsequence(icons: seq<Icon>, includeSizes: Option<set<int>>, maxSize: int)
    ensures IsSubsequence(Filtered(icons, includeSizes, maxSize), icons)
  {
    if icons != [] {
      var init := icons[..|icons| - 1];
      FilteredIsSubsequence(init, includeSizes, maxSize);
      var f := Filtered(icons, includeSizes, maxSize);
      if Keep(icons[|icons| - 1], includeSizes, maxSize) {
        assert f[..|f| - 1] == Filtered(init, includeSizes, maxSize);
      }
    }
  }

  /** Filtering keeps every icon that passes the test, as often as it occurs,
      and no other. */
  lemma {:induction false} FilteredCount(icons: seq<Icon>, includeSizes: Option<set<int>>, maxSize: int, x: Icon)
    ensures multiset(Filtered(icons, includeSizes, maxSize))[x]
         == if Keep(x, includeSizes, maxSize) then multiset(icons)[x] else 0
  {
    if icons != [] {
      var init := icons[..|icons| - 1];
      FilteredCount(init, includeSizes, maxSize, x);
      assert icons == init + [icons[|icons| - 1]];
    }
  }

  /** `filter_icons`: the kept icons, an error when none is left. */
  method FilterIcons(icons: seq<Icon>, includeSizes: Option<set<int>>, maxSize: int) returns (r: Result<seq<Icon>>)
    ensures r.Ok? <==> Filtered(icons, includeSizes, maxSize) != []
    ensures r.Ok? ==> r.value == Filtered(icons, includeSizes, maxSize)
    ensures r.Err? ==> r.error == NothingLeftAfterFiltering
  {
    var result: seq<Icon> := [];
    var i := 0;
    while i < |icons|
      invariant 0 <= i <= |icons|
      invariant result == Filtered(icons[..i], includeSizes, maxSize)
    {
      assert icons[..i + 1][..i] == icons[..i];
      var icon := icons[i];
      if Keep(icon, includeSizes, maxSize) {
        result := result + [icon];
      }
      i := i + 1;
    }
    assert icons[..i] == icons;
    if result == [] {
      return Err(NothingLeftAfterFiltering);
    }
    return Ok(result);
  }

  // ---------------------------------------------------------------------
  // unique_by_size

  /** Whether no two icons share a size. */
  predicate DistinctSizes(icons: seq<Icon>)
  {
    forall i, j :: 0 <= i < j < |icons| ==> icons[i].size != icons[j].size
  }

  /** Icons of distinct sizes are distinct icons. */
  lemma {:induction false} DistinctSizesNoRepeat(icons: seq<Icon>, x: Icon)
    requires DistinctSizes(icons)
    ensures multiset(icons)[x] <= 1
  {
    if icons != [] {
      var init := icons[..|icons| - 1];
      var last := icons[|icons| - 1];
      assert icons == init + [last];
      DistinctSizesNoRepeat(init, x);
    }
  }

  /** An icon found at two positions occurs at least twice. */
  lemma TwiceCounted(icons: seq<Icon>, i: nat, j: nat)
    requires i < j < |icons| && icons[i] == icons[j]
    ensures multiset(icons)[icons[i]] >= 2
  {
    var x := icons[i];
    assert icons == icons[..j] + [x] + icons[j + 1..];
    assert icons[..j][i] == x;
  }

  /** Reordering icons of distinct sizes keeps their sizes distinct. */
  lemma PermutationKeepsDistinctSizes(a: seq<Icon>, b: seq<Icon>)
    requires multiset(a) == multiset(b) && DistinctSizes(a)
    ensures DistinctSizes(b)
  {
    forall i, j | 0 <= i < j < |b|
      ensures b[i].size != b[j].size
    {
      if b[i] == b[j] {
        TwiceCounted(b, i, j);
        DistinctSizesNoRepeat(a, b[i]);
      } else {
        assert b[i] in multiset(a) && b[j] in multiset(a);
        var p :| 0 <= p < |a| && a[p] == b[i];
        var q :| 0 <= q < |a| && a[q] == b[j];
        assert p != q;
      }
    }
  }

  /** The sizes of `icons` in the order they first appear, each once. */
  function FirstSeenSizes(icons: seq<Icon>): (keys: seq<nat>)
    ensures forall i, j :: 0 <= i < j < |keys| ==> keys[i] != keys[j]
    ensures forall k :: k in keys <==> k in SizeSet(icons)
  {
    if icons == [] then []
    else
      var last := icons[|icons| - 1];
      var keys := FirstSeenSizes(icons[..|icons| - 1]);
      if last.size in keys then keys else keys + [last.size]
  }

  /** The position of the last icon of size k. */
  function LastIndexOfSize(icons: seq<Icon>, k: nat): (j: nat)
    requires k in SizeSet(icons)
    ensures j < |icons| && icons[j].size == k
    ensures forall j' :: j < j' < |icons| ==> icons[j'].size != k
  {
    var last := |icons| - 1;
    if icons[last].size == k then last
    else
      var j := LastIndexOfSize(icons[..last], k);
      assert forall j' :: j < j' < last ==> icons[..last][j'] == icons[j'];
      j
  }

  /** A Python dict from size to icon: its keys in insertion order, and
      the value stored under each. */
  datatype SizeDict = SizeDict(keys: seq<nat>, bySize: map<nat, Icon>)

  /** The dict after `by_size[icon.size] = icon` for each icon in turn: a
      new size is appended to the key order, a known one keeps its place
      and has its value replaced. */
  function Insertions(icons: seq<Icon>): (d: SizeDict)
    ensures forall k :: k in d.keys <==> k in d.bySize
    ensures d.bySize.Keys == SizeSet(icons)
  {
    if icons == [] then SizeDict([], map[])
    else
      var d := Insertions(icons[..|icons| - 1]);
      var icon := icons[|icons| - 1];
      SizeDict(if icon.size in d.bySize then d.keys else d.keys + [icon.size],
               d.bySize[icon.size := icon])
  }

  /** `list(by_size.values())`: the values in key order. */
  function Values(d: SizeDict): (r: seq<Icon>)
    requires forall k :: k in d.keys ==> k in d.bySize
    ensures |r| == |d.keys|
    ensures forall i :: 0 <= i < |r| ==> r[i] == d.bySize[d.keys[i]]
  {
    seq(|d.keys|, i requires 0 <= i < |d.keys| => d.bySize[d.keys[i]])
  }

  /** The list `unique_by_size` returns. */
  function UniqueBySizeSpec(icons: seq<Icon>): seq<Icon>
  {
    Values(Insertions(icons))
  }

  /** The key order is the order in which sizes first appear. */
  lemma {:induction false} InsertionsKeys(icons: seq<Icon>)
    ensures Insertions(icons).keys == FirstSeenSizes(icons)
  {
    if icons != [] {
      InsertionsKeys(icons[..|icons| - 1]);
    }
  }

  /** Under each size the dict holds the last icon of that size. */
  lemma {:induction false} InsertionsLastWins(icons: seq<Icon>, k: nat)
    requires k in SizeSet(icons)
    ensures Insertions(icons).bySize[k] == icons[LastIndexOfSize(icons, k)]
  {
    var last := |icons| - 1;
    if icons[last].size != k {
      var init := icons[..last];
      InsertionsLastWins(init, k);
      assert init[LastIndexOfSize(init, k)] == icons[LastIndexOfSize(init, k)];
    }
  }

  /** `unique_by_size` yields the sizes of its input, each once, in the
      order they first appear, and for each size the last icon given with
      it. */
  lemma UniqueBySizeResult(icons: seq<Icon>)
    ensures var r := UniqueBySizeSpec(icons);
      && Sizes(r) == FirstSeenSizes(icons)
      && DistinctSizes(r)
      && (forall i :: 0 <= i < |r| ==>
            r[i].size in SizeSet(icons) && r[i] == icons[LastIndexOfSize(icons, r[i].size)])
  {
    var d := Insertions(icons);
    InsertionsKeys(icons);
    var r := UniqueBySizeSpec(icons);
    forall i | 0 <= i < |r|
      ensures r[i].size == d.keys[i]
      ensures r[i].size in SizeSet(icons) && r[i] == icons[LastIndexOfSize(icons, r[i].size)]
    {
      InsertionsLastWins(icons, d.keys[i]);
    }
  }

  /** `unique_by_size`: fill a dict from size to icon, then take its values. */
  method UniqueBySize(icons: seq<Icon>) returns (r: seq<Icon>)
    ensures r == UniqueBySizeSpec(icons)
  {
    var keys: seq<nat> := [];
    var bySize: map<nat, Icon> := map[];
    var i := 0;
    while i < |icons|
      invariant 0 <= i <= |icons|
      invariant SizeDict(keys, bySize) == Insertions(icons[..i])
    {
      assert icons[..i + 1][..i] == icons[..i];
      var icon := icons[i];
      if icon.size !in bySize {
        keys := keys + [icon.size];
      }
      bySize := bySize[icon.size := icon];
      i := i + 1;
    }
    assert icons[..i] == icons;
    r := seq(|keys|, j requires 0 <= j < |keys| => bySize[keys[j]]);
  }

  // ---------------------------------------------------------------------
  // sort_icons

  /** Whether `a` may come before `b`: by size, largest first when
      `descending`, smallest first otherwise. */
  predicate InOrder(a: Icon, b: Icon, descending: bool)
  {
    if descending then a.size >= b.size else a.size <= b.size
  }

  predicate SortedBySize(icons: seq<Icon>, descending: bool)
  {
    forall i, j :: 0 <= i < j < |icons| ==> InOrder(icons[i], icons[j], descending)
  }

  /** Each icon may precede its successor. */
  predicate AdjacentInOrder(icons: seq<Icon>, descending: bool)
  {
    forall i :: 0 < i < |icons| ==> InOrder(icons[i - 1], icons[i], descending)
  }

  /** The order is transitive, so neighbours in order means all in order. */
  lemma {:induction false} AdjacentToSorted(icons: seq<Icon>, descending: bool)
    requires AdjacentInOrder(icons, descending)
    ensures SortedBySize(icons, descending)
  {
    if |icons| > 1 {
      var init := icons[..|icons| - 1];
      AdjacentToSorted(init, descending);
      forall i | 0 <= i < |icons| - 1
        ensures InOrder(icons[i], icons[|icons| - 1], descending)
      {
        assert InOrder(init[i], init[|init| - 1], descending) || i == |init| - 1;
      }
    }
  }

  /** Putting an icon in front of a list in order keeps it in order when
      the icon may precede the list's head. */
  lemma ConsInOrder(icon: Icon, icons: seq<Icon>, descending: bool)
    requires AdjacentInOrder(icons, descending)
    requires icons == [] || InOrder(icon, icons[0], descending)
    ensures AdjacentInOrder([icon] + icons, descending)
  {
    var r := [icon] + icons;
    forall i | 1 < i < |r| ensures InOrder(r[i - 1], r[i], descending) {
      assert r[i - 1] == icons[i - 2] && r[i] == icons[i - 1];
    }
  }

  /** `icon` placed before the first element it may precede; it goes before
      the equal-sized ones, so an earlier icon stays ahead of later ones of
      the same size. */
  function Insert(icon: Icon, sorted: seq<Icon>, descending: bool): (r: seq<Icon>)
    requires AdjacentInOrder(sorted, descending)
    ensures multiset(r) == multiset(sorted) + multiset{icon}
    ensures r != [] && (r[0] == icon || (sorted != [] && r[0] == sorted[0]))
    ensures AdjacentInOrder(r, descending)
  {
    if sorted == [] || InOrder(icon, sorted[0], descending) then
      ConsInOrder(icon, sorted, descending);
      [icon] + sorted
    else
      var tail := sorted[1..];
      assert sorted == [sorted[0]] + tail;
      assert AdjacentInOrder(tail, descending) by {
        forall i | 0 < i < |tail| ensures InOrder(tail[i - 1], tail[i], descending) {
          assert tail[i - 1] == sorted[i] && tail[i] == sorted[i + 1];
        }
      }
      var rest := Insert(icon, tail, descending);
      ConsInOrder(sorted[0], rest, descending);
      [sorted[0]] + rest
  }

  /** `sort_icons`: a stable sort by size, descending when `order` is
      "desc" and ascending for any other value. */
  function SortIcons(icons: seq<Icon>, order: string): (r: seq<Icon>)
    ensures multiset(r) == multiset(icons)
    ensures |r| == |icons|
    ensures AdjacentInOrder(r, order == "desc") && SortedBySize(r, order == "desc")
  {
    if icons == [] then []
    else
      assert icons == [icons[0]] + icons[1..];
      var r := Insert(icons[0], SortIcons(icons[1..], order), order == "desc");
      assert |r| == |multiset(r)|;
      AdjacentToSorted(r, order == "desc");
      r
  }
}
