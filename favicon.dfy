/** The body of the favicon builder's `main`, without the file system: parse
    the size whitelist, read the discovered PNG files, fall back to the
    classic ICO sizes when nothing narrows the choice, then filter, keep one
    icon per size, sort and serialise. */
module Favicon {
  import opened Bytes
  import opened Icons
  import Png
  import SizeList
  import opened Selection
  import Ico

  /** `DEFAULT_ICO_SIZES_DESC`: the sizes legacy ICO readers know best,
      largest first. */
  const DefaultIcoSizes: seq<nat> := [256, 128, 64, 48, 32, 24, 16]

  /** The classic sizes are distinct, listed largest first, and every one of
      them fits an ICO directory entry. */
  lemma DefaultIcoSizesValid()
    ensures forall i, j :: 0 <= i < j < |DefaultIcoSizes| ==> DefaultIcoSizes[i] > DefaultIcoSizes[j]
    ensures forall i :: 0 <= i < |DefaultIcoSizes| ==> 0 < DefaultIcoSizes[i] <= Ico.MaxIconSize
  {
  }

  // ---------------------------------------------------------------------
  // The classic-size fallback

  /** The entries of `defaults` that are among `discovered`, in order. */
  function KeepDiscovered(defaults: seq<nat>, discovered: set<nat>): (r: seq<nat>)
    ensures forall k :: k in r <==> k in defaults && k in discovered
  {
    if defaults == [] then []
    else
      var rest := KeepDiscovered(defaults[1..], discovered);
      assert defaults == [defaults[0]] + defaults[1..];
      if defaults[0] in discovered then [defaults[0]] + rest else rest
  }

  /** The whitelist `filter_icons` receives. A whitelist given on the command
      line, or explicit input files, leave it as it is; otherwise the classic
      sizes among the icons read become the whitelist, unless there are none,
      in which case every size is kept. */
  function IncludeSizes(given: Option<set<int>>, explicitInputs: bool, icons: seq<Icon>): (r: Option<set<int>>)
    ensures given.Some? || explicitInputs ==> r == given
    ensures given.None? && !explicitInputs ==>
      && (r.None? <==> forall k :: k in DefaultIcoSizes ==> k !in SizeSet(icons))
      && (r.Some? ==> forall v: int :: v in r.value <==> v >= 0 && v in DefaultIcoSizes && v in SizeSet(icons))
  {
    if given.None? && !explicitInputs then
      var preferred := KeepDiscovered(DefaultIcoSizes, SizeSet(icons));
      if preferred != [] then
        assert preferred[0] in preferred;
        Some(set k: int | k in preferred)
      else None
    else
      given
  }

  // ---------------------------------------------------------------------
  // Reading the discovered files

  /** The outcome of `read_png` for each file, in order. */
  function ReadResults(files: seq<(string, seq<byte>)>): (r: seq<Result<Icon>>)
    ensures |r| == |files|
    ensures forall i :: 0 <= i < |files| ==> r[i] == Png.ReadPng(files[i].0, files[i].1)
  {
    seq(|files|, i requires 0 <= i < |files| => Png.ReadPng(files[i].0, files[i].1))
  }

  /** All the values of `results`, or the first error among them. */
  function AllValues(results: seq<Result<Icon>>): (r: Result<seq<Icon>>)
    ensures r.Ok? ==> |r.value| == |results| && forall i :: 0 <= i < |results| ==> results[i] == Ok(r.value[i])
  {
    if results == [] then Ok([])
    else if results[0].Err? then Err(results[0].error)
    else
      var rest := AllValues(results[1..]);
      assert forall i :: 0 < i < |results| ==> results[i] == results[1..][i - 1];
      if rest.Err? then rest else Ok([results[0].value] + rest.value)
  }

  /** `AllValues` fails exactly when some outcome is an error, and then with
      the first one. */
  lemma {:induction false} AllValuesErrors(results: seq<Result<Icon>>)
    ensures AllValues(results).Ok? <==> FirstError(results) == |results|
    ensures AllValues(results).Err? ==> AllValues(results).error == results[FirstError(results)].error
  {
    if results != [] && results[0].Ok? {
      AllValuesErrors(results[1..]);
      if FirstError(results[1..]) < |results[1..]| {
        assert results[FirstError(results)] == results[1..][FirstError(results[1..])];
      }
    }
  }

  /** `[read_png(path) for path in png_paths]` on the files' contents: the
      icons in order when every file is a square PNG, otherwise the error of
      the first file that is not. */
  function ReadAll(files: seq<(string, seq<byte>)>): (r: Result<seq<Icon>>)
    ensures r.Ok? <==> forall i :: 0 <= i < |files| ==> Png.IsSquarePngHeader(files[i].1)
    ensures r.Ok? ==> |r.value| == |files|
    ensures r.Ok? ==> forall i :: 0 <= i < |files| ==> Png.ReadPng(files[i].0, files[i].1) == Ok(r.value[i])
    ensures r.Err? ==> var k := FirstError(ReadResults(files));
      && k < |files|
      && (forall j :: 0 <= j < k ==> Png.IsSquarePngHeader(files[j].1))
      && Png.ReadPng(files[k].0, files[k].1) == Err(r.error)
  {
    var results := ReadResults(files);
    AllValuesErrors(results);
    AllValues(results)
  }

  // ---------------------------------------------------------------------
  // The pipeline

  /** The icons that go into the file, or the first error `main` reports.
      `explicitInputs` says whether `--inputs` named at least one file;
      `files` are the paths found (the explicit inputs, or the sorted
      `icon-*.png` matches) with their contents. */
  function SelectIcons(sizesArg: Option<string>, explicitInputs: bool,
                       files: seq<(string, seq<byte>)>, order: string, maxSize: int): Result<seq<Icon>>
  {
    var parsed := SizeList.ParseSizesSpec(sizesArg);
    if parsed.Err? then Err(parsed.error)
    else if files == [] then Err(NoPngFiles)
    else
      var read := ReadAll(files);
      if read.Err? then Err(read.error)
      else
        var kept := Filtered(read.value, IncludeSizes(parsed.value, explicitInputs, read.value), maxSize);
        if kept == [] then Err(NothingLeftAfterFiltering)
        else Ok(SortIcons(UniqueBySizeSpec(kept), order))
  }

  /** The bytes `main` writes, or the first error it reports. */
  function MakeFaviconSpec(sizesArg: Option<string>, explicitInputs: bool,
                           files: seq<(string, seq<byte>)>, order: string, maxSize: int): Result<seq<byte>>
  {
    var selected := SelectIcons(sizesArg, explicitInputs, files, order, maxSize);
    if selected.Err? then Err(selected.error) else Ico.BuildIcoSpec(selected.value)
  }

  /** The `try` block of `main`, stage by stage. */
  method MakeFavicon(sizesArg: Option<string>, explicitInputs: bool,
                     files: seq<(string, seq<byte>)>, order: string, maxSize: int)
    returns (r: Result<seq<byte>>)
    ensures r == MakeFaviconSpec(sizesArg, explicitInputs, files, order, maxSize)
  {
    var includeSizes := SizeList.ParseSizes(sizesArg);
    if includeSizes.Err? {
      return Err(includeSizes.error);
    }
    if files == [] {
      return Err(NoPngFiles);
    }
    var icons := ReadAll(files);
    if icons.Err? {
      return Err(icons.error);
    }
    var whitelist := IncludeSizes(includeSizes.value, explicitInputs, icons.value);
    var kept := FilterIcons(icons.value, whitelist, maxSize);
    if kept.Err? {
      return Err(kept.error);
    }
    var unique := UniqueBySize(kept.value);
    var sorted := SortIcons(unique, order);
    r := Ico.BuildIco(sorted);
  }

  // ---------------------------------------------------------------------
  // Properties of the selection

  /** An icon that survives filtering was read and passes the test. */
  lemma FilteredMember(icons: seq<Icon>, includeSizes: Option<set<int>>, maxSize: int, x: Icon)
    requires x in Filtered(icons, includeSizes, maxSize)
    ensures x in icons && Keep(x, includeSizes, maxSize)
  {
    FilteredCount(icons, includeSizes, maxSize, x);
  }

  /** Keeping one icon per size leaves at least one icon, and only icons
      given. */
  lemma UniqueBySizeKeeps(icons: seq<Icon>)
    requires icons != []
    ensures var u := UniqueBySizeSpec(icons);
      u != [] && DistinctSizes(u) && forall x :: x in u ==> x in icons
  {
    var u := UniqueBySizeSpec(icons);
    UniqueBySizeResult(icons);
    SizeSetMembers(icons, icons[0].size);
    assert icons[0].size in FirstSeenSizes(icons);
    assert |u| == |FirstSeenSizes(icons)|;
    forall x | x in u
      ensures x in icons
    {
      var k :| 0 <= k < |u| && u[k] == x;
      assert x == icons[LastIndexOfSize(icons, x.size)];
    }
  }

  /** The stages after reading: whatever survives filtering, deduplication
      and sorting is a non-empty, size-ordered list of distinct sizes, all
      read and all passing the size tests. */
  lemma StagesResult(read: seq<Icon>, whitelist: Option<set<int>>, maxSize: int, order: string)
    requires Filtered(read, whitelist, maxSize) != []
    ensures var s := SortIcons(UniqueBySizeSpec(Filtered(read, whitelist, maxSize)), order);
      && s != []
      && DistinctSizes(s)
      && SortedBySize(s, order == "desc")
      && forall i :: 0 <= i < |s| ==> s[i] in read && Keep(s[i], whitelist, maxSize)
  {
    var kept := Filtered(read, whitelist, maxSize);
    var unique := UniqueBySizeSpec(kept);
    var s := SortIcons(unique, order);
    UniqueBySizeKeeps(kept);
    PermutationKeepsDistinctSizes(unique, s);
    forall i | 0 <= i < |s|
      ensures s[i] in read && Keep(s[i], whitelist, maxSize)
    {
      assert s[i] in multiset(unique);
      FilteredMember(read, whitelist, maxSize, s[i]);
    }
  }

  /** When the selection fails and with which error, in the order `main`
      meets them: a bad `--sizes`, no files, the first unreadable file, and
      nothing left after filtering. It succeeds exactly when the sizes parse,
      there are files, all are square PNGs, and one of them passes the size
      tests. */
  lemma SelectIconsOutcome(sizesArg: Option<string>, explicitInputs: bool,
                           files: seq<(string, seq<byte>)>, order: string, maxSize: int)
    ensures var s := SelectIcons(sizesArg, explicitInputs, files, order, maxSize);
      var parsed := SizeList.ParseSizesSpec(sizesArg);
      && (parsed.Err? ==> s == Err(parsed.error))
      && (parsed.Ok? && files == [] ==> s == Err(NoPngFiles))
      && (parsed.Ok? && files != [] && ReadAll(files).Err? ==> s == Err(ReadAll(files).error))
      && (parsed.Ok? && files != [] && ReadAll(files).Ok? && s.Err? ==> s == Err(NothingLeftAfterFiltering))
      && (s.Ok? <==>
            && parsed.Ok? && files != []
            && (forall i :: 0 <= i < |files| ==> Png.IsSquarePngHeader(files[i].1))
            && exists x :: x in ReadAll(files).value
                 && Keep(x, IncludeSizes(parsed.value, explicitInputs, ReadAll(files).value), maxSize))
  {
    var parsed := SizeList.ParseSizesSpec(sizesArg);
    if parsed.Ok? && files != [] && ReadAll(files).Ok? {
      var read := ReadAll(files).value;
      var whitelist := IncludeSizes(parsed.value, explicitInputs, read);
      var kept := Filtered(read, whitelist, maxSize);
      if kept != [] {
        FilteredMember(read, whitelist, maxSize, kept[0]);
      }
      if exists x :: x in read && Keep(x, whitelist, maxSize) {
        var x :| x in read && Keep(x, whitelist, maxSize);
        FilteredCount(read, whitelist, maxSize, x);
        assert x in multiset(kept);
      }
    }
  }

  /** The file is written exactly when the selection succeeds and the icons
      selected fit the ICO format; a selection error is the one reported. */
  lemma MakeFaviconOutcome(sizesArg: Option<string>, explicitInputs: bool,
                           files: seq<(string, seq<byte>)>, order: string, maxSize: int)
    ensures var s := SelectIcons(sizesArg, explicitInputs, files, order, maxSize);
      var m := MakeFaviconSpec(sizesArg, explicitInputs, files, order, maxSize);
      && (s.Err? ==> m == Err(s.error))
      && (s.Ok? ==>
            (m.Ok? <==>
               && |s.value| <= Ico.MaxIcons
               && forall i :: 0 <= i < |s.value| ==>
                    && s.value[i].size <= Ico.MaxIconSize
                    && |s.value[i].data| < Pow256(4)
                    && Ico.ImageOffset(s.value, i) < Pow256(4)))
  {
    var s := SelectIcons(sizesArg, explicitInputs, files, order, maxSize);
    if s.Ok? {
      Ico.BuildIcoSucceeds(s.value);
    }
  }

  /** Conversely, the size of every icon read that passes the size tests is
      among those that survive the stages. */
  lemma StagesKeepEverySize(read: seq<Icon>, whitelist: Option<set<int>>, maxSize: int,
                            order: string, x: Icon)
    requires x in read && Keep(x, whitelist, maxSize)
    ensures HasSize(SortIcons(UniqueBySizeSpec(Filtered(read, whitelist, maxSize)), order), x.size)
  {
    var kept := Filtered(read, whitelist, maxSize);
    FilteredCount(read, whitelist, maxSize, x);
    assert x in multiset(kept);
    var j :| 0 <= j < |kept| && kept[j] == x;
    SizeSetMembers(kept, x.size);
    var unique := UniqueBySizeSpec(kept);
    UniqueBySizeResult(kept);
    assert x.size in Sizes(unique);
    var m :| 0 <= m < |unique| && Sizes(unique)[m] == x.size;
    var s := SortIcons(unique, order);
    assert unique[m] in multiset(s);
    var i :| 0 <= i < |s| && s[i] == unique[m];
  }

  /** What reaches `build_ico`: at least one icon, no two of the same size,
      ordered by size as asked, each one of the icons read and each passing
      the size tests; and every size of an icon read that passes those tests
      is there (exactly once, as the sizes are distinct). */
  lemma SelectIconsResult(sizesArg: Option<string>, explicitInputs: bool,
                          files: seq<(string, seq<byte>)>, order: string, maxSize: int)
    requires SelectIcons(sizesArg, explicitInputs, files, order, maxSize).Ok?
    ensures var s := SelectIcons(sizesArg, explicitInputs, files, order, maxSize).value;
      var read := ReadAll(files).value;
      var whitelist := IncludeSizes(SizeList.ParseSizesSpec(sizesArg).value, explicitInputs, read);
      && s != []
      && DistinctSizes(s)
      && SortedBySize(s, order == "desc")
      && (forall i :: 0 <= i < |s| ==> s[i] in read && Keep(s[i], whitelist, maxSize))
      && (forall x :: x in read && Keep(x, whitelist, maxSize) ==> HasSize(s, x.size))
  {
    var read := ReadAll(files).value;
    var whitelist := IncludeSizes(SizeList.ParseSizesSpec(sizesArg).value, explicitInputs, read);
    StagesResult(read, whitelist, maxSize, order);
    forall x | x in read && Keep(x, whitelist, maxSize)
      ensures HasSize(SortIcons(UniqueBySizeSpec(Filtered(read, whitelist, maxSize)), order), x.size)
    {
      StagesKeepEverySize(read, whitelist, maxSize, order, x);
    }
  }

  /** With no whitelist and no explicit inputs, once any classic size is
      among the icons read, only classic sizes reach `build_ico`. */
  lemma ClassicSizesPreferred(sizesArg: Option<string>, files: seq<(string, seq<byte>)>,
                              order: string, maxSize: int, k: nat)
    requires SizeList.ParseSizesSpec(sizesArg) == Ok(None)
    requires SelectIcons(sizesArg, false, files, order, maxSize).Ok?
    requires k in DefaultIcoSizes && HasSize(ReadAll(files).value, k)
    ensures var s := SelectIcons(sizesArg, false, files, order, maxSize).value;
      forall i :: 0 <= i < |s| ==> s[i].size in DefaultIcoSizes
  {
    var read := ReadAll(files).value;
    SizeSetMembers(read, k);
    SelectIconsResult(sizesArg, false, files, order, maxSize);
  }
}
