/** Parsing the `--sizes` option: a comma-separated list of positive integers
    that restricts which icon sizes go into the ICO file. */
module SizeList {
  import opened Icons

  // ---------------------------------------------------------------------
  // Splitting on commas (Python's `str.split(",")`)

  /** The pieces of `s` between commas; n commas give n + 1 pieces, so empty
      pieces are kept. */
  function Split(s: string): (parts: seq<string>)
    ensures |parts| >= 1
    decreases |s|
  {
    if s == [] then [""]
    else
      var rest := Split(s[1..]);
      if s[0] == ',' then [""] + rest else [[s[0]] + rest[0]] + rest[1..]
  }

  /** The pieces glued back together with commas. */
  function Join(parts: seq<string>): string
    requires |parts| >= 1
  {
    if |parts| == 1 then parts[0] else parts[0] + "," + Join(parts[1..])
  }

  /** Split loses nothing: joining the pieces gives the input back, and no
      piece contains a comma. */
  lemma {:induction false} SplitJoin(s: string)
    ensures Join(Split(s)) == s
    ensures forall i :: 0 <= i < |Split(s)| ==> ',' !in Split(s)[i]
    decreases |s|
  {
    if s != [] {
      var rest := Split(s[1..]);
      SplitJoin(s[1..]);
      if s[0] == ',' {
        assert Split(s)[1..] == rest;
      } else {
        var parts := Split(s);
        if |rest| == 1 {
          assert parts == [[s[0]] + rest[0]];
        } else {
          assert parts[1..] == rest[1..];
          assert Join(parts) == [s[0]] + (rest[0] + "," + Join(rest[1..]));
        }
      }
    }
  }

  // ---------------------------------------------------------------------
  // Stripping whitespace (Python's `str.strip()` restricted to ASCII)

  /** The ASCII characters Python's `str.isspace` accepts. */
  predicate IsSpace(c: char)
  {
    c == ' ' || (9 <= c as int <= 13) || (28 <= c as int <= 31)
  }

  predicate AllSpace(s: string)
  {
    forall i :: 0 <= i < |s| ==> IsSpace(s[i])
  }

  /** The number of whitespace characters at the start of `s`. */
  function LeadingSpaces(s: string): (k: nat)
    ensures k <= |s|
    ensures AllSpace(s[..k])
    ensures k < |s| ==> !IsSpace(s[k])
  {
    if s != [] && IsSpace(s[0]) then 1 + LeadingSpaces(s[1..]) else 0
  }

  /** The number of whitespace characters at the end of `s`. */
  function TrailingSpaces(s: string): (k: nat)
    ensures k <= |s|
    ensures AllSpace(s[|s| - k..])
    ensures k < |s| ==> !IsSpace(s[|s| - k - 1])
  {
    if s != [] && IsSpace(s[|s| - 1]) then 1 + TrailingSpaces(s[..|s| - 1]) else 0
  }

  /** `s` without leading and trailing whitespace. */
  function Strip(s: string): (r: string)
    ensures r == [] <==> AllSpace(s)
    ensures r != [] ==> !IsSpace(r[0]) && !IsSpace(r[|r| - 1])
    ensures LeadingSpaces(s) + |r| <= |s| && r == s[LeadingSpaces(s)..LeadingSpaces(s) + |r|]
    ensures AllSpace(s[LeadingSpaces(s) + |r|..])
  {
    var a := LeadingSpaces(s);
    if a == |s| then
      assert s[..a] == s;
      []
    else
      var b := TrailingSpaces(s[a..]);
      s[a..|s| - b]
  }

  // ---------------------------------------------------------------------
  // Integers (Python's `int(token)`, ASCII digits only)

  predicate IsDigit(c: char)
  {
    '0' <= c <= '9'
  }

  predicate AllDigits(s: string)
  {
    forall i :: 0 <= i < |s| ==> IsDigit(s[i])
  }

  /** The value of a string of decimal digits, most significant first. */
  function DigitsValue(ds: string): nat
    requires AllDigits(ds)
  {
    if ds == [] then 0
    else 10 * DigitsValue(ds[..|ds| - 1]) + (ds[|ds| - 1] as int - '0' as int)
  }

  /** An optional sign followed by one or more decimal digits. */
  function ParseInt(t: string): (r: Option<int>)
    ensures r.Some? ==> t != [] && IsDigit(t[|t| - 1])
    ensures r.Some? && r.value < 0 ==> t[0] == '-'
    ensures t != [] && AllDigits(t) ==> r == Some(DigitsValue(t))
    ensures r.Some? <==> t != [] && AllDigits(t[1..])
                         && (IsDigit(t[0]) || (|t| > 1 && (t[0] == '+' || t[0] == '-')))
    ensures r.Some? && !IsDigit(t[0]) ==>
      r.value == (if t[0] == '-' then -(DigitsValue(t[1..]) as int) else DigitsValue(t[1..]))
  {
    var negative := t != [] && t[0] == '-';
    var digits := if t != [] && (t[0] == '+' || t[0] == '-') then t[1..] else t;
    if digits != [] && AllDigits(digits) then
      var magnitude: int := DigitsValue(digits);
      Some(if negative then -magnitude else magnitude)
    else
      None
  }

  /** The decimal digits of `n`, without leading zeros. */
  function Decimal(n: nat): (ds: string)
    ensures ds != [] && AllDigits(ds)
  {
    if n < 10 then [('0' as int + n) as char]
    else Decimal(n / 10) + [('0' as int + n % 10) as char]
  }

  lemma {:induction false} DecimalValue(n: nat)
    ensures DigitsValue(Decimal(n)) == n
  {
    if n >= 10 {
      DecimalValue(n / 10);
      var ds := Decimal(n);
      assert ds[..|ds| - 1] == Decimal(n / 10);
    }
  }

  /** Every integer, written in decimal, parses back to itself. */
  lemma ParseDecimal(n: int)
    ensures n >= 0 ==> ParseInt(Decimal(n)) == Some(n)
    ensures n < 0 ==> ParseInt("-" + Decimal(-n)) == Some(n)
  {
    if n >= 0 {
      DecimalValue(n);
    } else {
      DecimalValue(-n);
      assert ("-" + Decimal(-n))[1..] == Decimal(-n);
    }
  }

  // ---------------------------------------------------------------------
  // The size list

  /** What one comma-separated token contributes: nothing when it is blank,
      its value when it is a positive integer, an error otherwise. */
  function TokenSize(token: string): (r: Result<Option<int>>)
    ensures r.Ok? && r.value.Some? ==> r.value.value > 0
  {
    var t := Strip(token);
    if t == [] then Ok(None)
    else match ParseInt(t)
      case None => Err(InvalidSizeValue(t))
      case Some(v) => if v <= 0 then Err(NonPositiveSize(v)) else Ok(Some(v))
  }

  /** The two errors a non-blank token can raise: a stripped token that is
      not an integer is an invalid value, and an integer that is not
      positive is refused as such. */
  lemma TokenErrors(token: string)
    ensures var t := Strip(token);
      && (t != [] && ParseInt(t).None? ==> TokenSize(token) == Err(InvalidSizeValue(t)))
      && (ParseInt(t).Some? && ParseInt(t).value <= 0 ==>
            TokenSize(token) == Err(NonPositiveSize(ParseInt(t).value)))
      && (ParseInt(t).Some? && ParseInt(t).value > 0 ==>
            TokenSize(token) == Ok(Some(ParseInt(t).value)))
  {
  }

  /** A token is skipped exactly when it is blank. */
  lemma BlankToken(token: string)
    ensures TokenSize(token) == Ok(None) <==> AllSpace(token)
  {
    var t := Strip(token);
    assert t == [] <==> AllSpace(token);
  }

  /** The outcome of each token, in order. */
  function TokenResults(tokens: seq<string>): (r: seq<Result<Option<int>>>)
    ensures |r| == |tokens|
    ensures forall i :: 0 <= i < |tokens| ==> r[i] == TokenSize(tokens[i])
  {
    seq(|tokens|, i requires 0 <= i < |tokens| => TokenSize(tokens[i]))
  }

  /** The sizes one accepted token adds. */
  function TokenSizes(size: Option<int>): set<int>
  {
    if size.Some? then {size.value} else {}
  }

  /** The sizes of all outcomes, or the first error among them. */
  function Gather(results: seq<Result<Option<int>>>): Result<set<int>>
  {
    if results == [] then Ok({})
    else if results[0].Err? then Err(results[0].error)
    else
      var rest := Gather(results[1..]);
      if rest.Err? then rest else Ok(TokenSizes(results[0].value) + rest.value)
  }

  /** The sizes of all tokens, or the error of the first bad one. */
  function CollectSizes(tokens: seq<string>): Result<set<int>>
  {
    Gather(TokenResults(tokens))
  }

  /** `parse_sizes`: no filter (`None`) for an absent or empty option. */
  function ParseSizesSpec(raw: Option<string>): Result<Option<set<int>>>
  {
    if raw.None? || raw.value == [] then Ok(None) else SizeFilter(CollectSizes(Split(raw.value)))
  }

  /** The filter made of the collected sizes: an error when there are none. */
  function SizeFilter(collected: Result<set<int>>): Result<Option<set<int>>>
  {
    if collected.Err? then Err(collected.error)
    else if collected.value == {} then Err(NoSizesGiven)
    else Ok(Some(collected.value))
  }

  lemma {:induction false} GatherErrors(results: seq<Result<Option<int>>>)
    ensures Gather(results).Ok? <==> FirstError(results) == |results|
    ensures Gather(results).Err? ==> Gather(results).error == results[FirstError(results)].error
  {
    if results != [] && results[0].Ok? {
      GatherErrors(results[1..]);
      if FirstError(results[1..]) < |results[1..]| {
        assert results[FirstError(results)] == results[1..][FirstError(results[1..])];
      }
    }
  }

  /** Some outcome is the size v. */
  predicate SomeResultIs(results: seq<Result<Option<int>>>, v: int)
  {
    exists i :: 0 <= i < |results| && results[i] == Ok(Some(v))
  }

  lemma {:induction false} GatherMembers(results: seq<Result<Option<int>>>, v: int)
    requires Gather(results).Ok?
    ensures v in Gather(results).value <==> SomeResultIs(results, v)
  {
    if results != [] {
      var rest := results[1..];
      GatherMembers(rest, v);
      if SomeResultIs(results, v) {
        var i :| 0 <= i < |results| && results[i] == Ok(Some(v));
        if i > 0 { assert rest[i - 1] == results[i]; }
      }
      if SomeResultIs(rest, v) {
        var i :| 0 <= i < |rest| && rest[i] == Ok(Some(v));
        assert results[i + 1] == rest[i];
      }
    }
  }

  /** The tokens are accepted exactly when none of them is bad; otherwise the
      error is that of the first bad token. */
  lemma CollectSizesErrors(tokens: seq<string>)
    ensures var k := FirstError(TokenResults(tokens));
      && k <= |tokens|
      && (forall j :: 0 <= j < k ==> TokenSize(tokens[j]).Ok?)
      && (k < |tokens| ==> TokenSize(tokens[k]).Err?)
      && (CollectSizes(tokens).Ok? <==> k == |tokens|)
      && (CollectSizes(tokens).Err? ==> CollectSizes(tokens).error == TokenSize(tokens[k]).error)
  {
    GatherErrors(TokenResults(tokens));
  }

  /** Some token of the list has the value v. */
  predicate SomeTokenIs(tokens: seq<string>, v: int)
  {
    exists i :: 0 <= i < |tokens| && TokenSize(tokens[i]) == Ok(Some(v))
  }

  /** An accepted list holds exactly the values of its non-blank tokens,
      which are all positive. */
  lemma CollectSizesMembers(tokens: seq<string>, v: int)
    requires CollectSizes(tokens).Ok?
    ensures v in CollectSizes(tokens).value <==> SomeTokenIs(tokens, v)
    ensures v in CollectSizes(tokens).value ==> v > 0
  {
    var results := TokenResults(tokens);
    GatherMembers(results, v);
    if SomeResultIs(results, v) {
      var i :| 0 <= i < |results| && results[i] == Ok(Some(v));
      assert TokenSize(tokens[i]) == Ok(Some(v));
    }
    if SomeTokenIs(tokens, v) {
      var i :| 0 <= i < |tokens| && TokenSize(tokens[i]) == Ok(Some(v));
      assert results[i] == Ok(Some(v));
    }
  }

  /** The filter is never "no filter": the loop's error is passed on, an
      empty set is refused, and a non-empty set is the filter. */
  lemma SizeFilterResult(collected: Result<set<int>>)
    ensures SizeFilter(collected) != Ok(None)
    ensures SizeFilter(collected).Ok? ==>
      collected.Ok? && collected.value != {} && SizeFilter(collected).value == Some(collected.value)
    ensures collected.Err? ==> SizeFilter(collected) == Err(collected.error)
    ensures collected == Ok({}) ==> SizeFilter(collected) == Err(NoSizesGiven)
    ensures collected.Ok? && collected.value != {} ==> SizeFilter(collected) == Ok(Some(collected.value))
  {
  }

  /** Every size an accepted list holds is positive. */
  lemma CollectSizesPositive(tokens: seq<string>)
    requires CollectSizes(tokens).Ok?
    ensures forall v :: v in CollectSizes(tokens).value ==> v > 0
  {
    forall v | v in CollectSizes(tokens).value
      ensures v > 0
    {
      CollectSizesMembers(tokens, v);
    }
  }

  /** What `parse_sizes` promises: no filter only for an absent or empty
      option, otherwise a non-empty set of positive sizes. */
  lemma ParseSizesResult(raw: Option<string>)
    ensures ParseSizesSpec(raw) == Ok(None) <==> raw.None? || raw.value == []
    ensures ParseSizesSpec(raw).Ok? && ParseSizesSpec(raw).value.Some? ==>
      ParseSizesSpec(raw).value.value != {} && forall v :: v in ParseSizesSpec(raw).value.value ==> v > 0
  {
    if raw.Some? && raw.value != [] {
      var tokens := Split(raw.value);
      var collected := CollectSizes(tokens);
      SizeFilterResult(collected);
      if collected.Ok? {
        CollectSizesPositive(tokens);
      }
    }
  }

  /** Each size in the filter is the value of some token of the option. */
  lemma ParseSizesMember(raw: string, v: int)
    requires ParseSizesSpec(Some(raw)).Ok? && ParseSizesSpec(Some(raw)).value.Some?
    ensures v in ParseSizesSpec(Some(raw)).value.value <==> SomeTokenIs(Split(raw), v)
  {
    var tokens := Split(raw);
    assert ParseSizesSpec(Some(raw)).value.value == CollectSizes(tokens).value;
    CollectSizesMembers(tokens, v);
  }

  /** A non-empty option whose tokens are all blank is an error. */
  lemma AllBlankIsError(raw: string)
    requires raw != []
    requires forall i :: 0 <= i < |Split(raw)| ==> AllSpace(Split(raw)[i])
    ensures ParseSizesSpec(Some(raw)) == Err(NoSizesGiven)
  {
    var tokens := Split(raw);
    var results := TokenResults(tokens);
    forall i | 0 <= i < |tokens|
      ensures results[i] == Ok(None)
    {
      BlankToken(tokens[i]);
    }
    GatherErrors(results);
    var sizes := Gather(results).value;
    forall v | v in sizes ensures false {
      GatherMembers(results, v);
    }
    assert sizes == {};
  }
  /** When `parse_sizes` fails and how: the first bad token's error, and
      otherwise success exactly when some token is not blank. */
  lemma ParseSizesErrors(raw: string)
    requires raw != []
    ensures var tokens := Split(raw);
      var k := FirstError(TokenResults(tokens));
      && (k < |tokens| ==> ParseSizesSpec(Some(raw)) == Err(TokenSize(tokens[k]).error))
      && (ParseSizesSpec(Some(raw)).Ok? <==>
            k == |tokens| && exists i :: 0 <= i < |tokens| && !AllSpace(tokens[i]))
  {
    var tokens := Split(raw);
    var collected := CollectSizes(tokens);
    assert ParseSizesSpec(Some(raw)) == SizeFilter(collected);
    CollectSizesErrors(tokens);
    if collected.Ok? {
      if exists i :: 0 <= i < |tokens| && !AllSpace(tokens[i]) {
        var i :| 0 <= i < |tokens| && !AllSpace(tokens[i]);
        BlankToken(tokens[i]);
        var v := TokenSize(tokens[i]).value.value;
        CollectSizesMembers(tokens, v);
      } else {
        AllBlankIsError(raw);
      }
    }
  }


  /** The sizes collected so far joined to the outcome for the remaining
      tokens. */
  function AddSizes(sizes: set<int>, rest: Result<set<int>>): Result<set<int>>
  {
    if rest.Err? then rest else Ok(sizes + rest.value)
  }

  /** One step of Gather from position i, with the sizes collected before
      it. */
  lemma GatherStep(results: seq<Result<Option<int>>>, i: nat, sizes: set<int>)
    requires i < |results|
    ensures results[i].Err? ==> AddSizes(sizes, Gather(results[i..])) == Err(results[i].error)
    ensures results[i].Ok? ==>
      AddSizes(sizes, Gather(results[i..])) == AddSizes(sizes + TokenSizes(results[i].value), Gather(results[i + 1..]))
  {
    assert results[i..][0] == results[i];
    assert results[i..][1..] == results[i + 1..];
    var rest := Gather(results[i + 1..]);
    if results[i].Ok? && rest.Ok? {
      assert sizes + (TokenSizes(results[i].value) + rest.value) == (sizes + TokenSizes(results[i].value)) + rest.value;
    }
  }

  /** The loop of `parse_sizes` over the comma-separated tokens: strip each
      one, skip blanks, stop at the first that is not a positive integer. */
  method ParseTokens(tokens: seq<string>) returns (r: Result<set<int>>)
    ensures r == CollectSizes(tokens)
  {
    ghost var results := TokenResults(tokens);
    assert results[0..] == results;
    assert CollectSizes(tokens).Ok? ==> {} + CollectSizes(tokens).value == CollectSizes(tokens).value;
    var sizes: set<int> := {};
    var i := 0;
    while i < |tokens|
      invariant 0 <= i <= |tokens|
      invariant CollectSizes(tokens) == AddSizes(sizes, Gather(results[i..]))
    {
      var size := TokenSize(tokens[i]);
      GatherStep(results, i, sizes);
      if size.Err? {
        return Err(size.error);
      }
      sizes := sizes + TokenSizes(size.value);
      i := i + 1;
    }
    assert results[i..] == [];
    assert sizes + {} == sizes;
    return Ok(sizes);
  }

  /** `parse_sizes`: no filter for an absent or empty option, otherwise the
      sizes of the comma-separated tokens, which must not all be blank. */
  method ParseSizes(raw: Option<string>) returns (r: Result<Option<set<int>>>)
    ensures r == ParseSizesSpec(raw)
  {
    if raw.None? || raw.value == [] {
      return Ok(None);
    }
    var collected := ParseTokens(Split(raw.value));
    if collected.Err? {
      return Err(collected.error);
    }
    if collected.value == {} {
      return Err(NoSizesGiven);
    }
    return Ok(Some(collected.value));
  }
}
