/**
 The helpers of forecasttools/recode_locations.py: two-way recoding of a
 location column through the jurisdiction table, format-to-column dispatch,
 table lookup by a vector of identifiers, and the hub location lookup and
 row filter.
 */
module RecodeLocations {
  import opened Locations
  import opened Strings
  import opened Constants

  // ---------------------------------------------------------------------------
  // Recoding a location column
  // ---------------------------------------------------------------------------

  /** Index of the first record whose column `c` holds `v`, or |t| when none does. */
  function FirstMatch(t: Table, c: TableColumn, v: string): (k: nat)
    ensures k <= |t|
    ensures forall j :: 0 <= j < k ==> Field(t[j], c) != v
    ensures k < |t| ==> Field(t[k], c) == v
    decreases |t|
  {
    if |t| == 0 then 0
    else if Field(t[0], c) == v then 0
    else 1 + FirstMatch(t[1..], c, v)
  }

  /**
   The table library's `replace(old, new)` on one value: the first record whose
   `from` column holds `v` supplies its `to` column; a value no record holds is
   kept as it is.
   */
  function Replace(t: Table, from: TableColumn, to: TableColumn, v: string): (w: string)
    ensures v in KeySet(t, from) ==> Translates(t, from, to, v, w)
    ensures v !in KeySet(t, from) ==> w == v
  {
    var k := FirstMatch(t, from, v);
    if k < |t| then Field(t[k], to) else v
  }

  /** Replacing through a column with unique values and back restores the value. */
  lemma ReplaceRoundTrip(t: Table, from: TableColumn, to: TableColumn, v: string)
    requires UniqueField(t, to)
    requires v in KeySet(t, from)
    ensures Replace(t, from, to, v) in KeySet(t, to)
    ensures Replace(t, to, from, Replace(t, from, to, v)) == v
  {
  }

  /**
   `with_columns(pl.col(col).replace(old, new))`: column `col` of every row is
   translated through the table where a record holds its value and kept where
   none does; the rest of each row is untouched.
   */
  function RecodeColumn(t: Table, df: Frame, col: string, from: TableColumn, to: TableColumn): (r: Frame)
    requires HasColumn(df, col)
    ensures |r| == |df| && HasColumn(r, col)
    ensures forall i :: 0 <= i < |df| ==>
      r[i].Keys == df[i].Keys &&
      (forall c :: c in df[i] && c != col ==> r[i][c] == df[i][c])
    ensures forall i :: 0 <= i < |df| && df[i][col] in KeySet(t, from) ==>
      Translates(t, from, to, df[i][col], r[i][col])
    ensures forall i :: 0 <= i < |df| && df[i][col] !in KeySet(t, from) ==> r[i][col] == df[i][col]
  {
    seq(|df|, i requires 0 <= i < |df| => df[i][col := Replace(t, from, to, df[i][col])])
  }

  /**
   The check-then-replace both recoders share: an empty frame, a missing
   column, or a column value outside the `from` column of the table fails
   before anything is recoded; otherwise every value of `col` is replaced
   through the table and nothing else changes.
   */
  function Recode(t: Table, df: Frame, col: string, from: TableColumn, to: TableColumn): (r: Result<Frame>)
    ensures |df| == 0 ==> r == Failure(EmptyFrame)
    ensures |df| > 0 && !HasColumn(df, col) ==> r == Failure(MissingColumn(col))
    ensures |df| > 0 && HasColumn(df, col) ==>
      (r.Failure? <==> exists i :: 0 <= i < |df| && df[i][col] !in KeySet(t, from))
    ensures |df| > 0 && HasColumn(df, col) && r.Failure? ==>
      r.error == InvalidLocationValues(col, ColumnValues(df, col) - KeySet(t, from))
    ensures r.Failure? && r.error.InvalidLocationValues? ==>
      r.error.column == col &&
      forall v :: v in r.error.values <==>
        (exists i :: 0 <= i < |df| && col in df[i] && df[i][col] == v) && v !in KeySet(t, from)
    ensures r.Success? ==> |r.value| == |df| && HasColumn(df, col)
    ensures r.Success? ==> forall i :: 0 <= i < |df| ==>
      r.value[i].Keys == df[i].Keys &&
      (forall c :: c in df[i] && c != col ==> r.value[i][c] == df[i][c]) &&
      Translates(t, from, to, df[i][col], r.value[i][col])
  {
    if |df| == 0 then Failure(EmptyFrame)
    else if !HasColumn(df, col) then Failure(MissingColumn(col))
    else
      var invalid := ColumnValues(df, col) - KeySet(t, from);
      if invalid != {} then
        assert exists i :: 0 <= i < |df| && df[i][col] !in KeySet(t, from);
        Failure(InvalidLocationValues(col, invalid))
      else
        assert forall i :: 0 <= i < |df| ==> df[i][col] in KeySet(t, from) by {
          forall i | 0 <= i < |df|
            ensures df[i][col] in KeySet(t, from)
          {
            assert df[i][col] in ColumnValues(df, col);
            assert df[i][col] !in invalid;
          }
        }
        Success(RecodeColumn(t, df, col, from, to))
  }

  /**
   `loc_abbr_to_hubverse_code`: recodes column `col` from two-letter
   abbreviations to hubverse location codes.
   */
  function LocAbbrToHubverseCode(t: Table, df: Frame, col: string): (r: Result<Frame>)
    ensures |df| == 0 ==> r == Failure(EmptyFrame)
    ensures |df| > 0 && !HasColumn(df, col) ==> r == Failure(MissingColumn(col))
    ensures |df| > 0 && HasColumn(df, col) ==>
      (r.Failure? <==> exists i :: 0 <= i < |df| && df[i][col] !in KeySet(t, ShortName))
    ensures |df| > 0 && HasColumn(df, col) && r.Failure? ==>
      r.error == InvalidLocationValues(col, ColumnValues(df, col) - KeySet(t, ShortName))
    ensures r.Success? ==> |r.value| == |df| && forall i :: 0 <= i < |df| ==>
      r.value[i].Keys == df[i].Keys &&
      (forall c :: c in df[i] && c != col ==> r.value[i][c] == df[i][c]) &&
      exists k :: 0 <= k < |t| && t[k].shortName == df[i][col] && t[k].locationCode == r.value[i][col]
  {
    Recode(t, df, col, ShortName, LocationCode)
  }

  /**
   `loc_hubverse_code_to_abbr`: recodes column `col` from hubverse location
   codes to two-letter abbreviations.
   */
  function LocHubverseCodeToAbbr(t: Table, df: Frame, col: string): (r: Result<Frame>)
    ensures |df| == 0 ==> r == Failure(EmptyFrame)
    ensures |df| > 0 && !HasColumn(df, col) ==> r == Failure(MissingColumn(col))
    ensures |df| > 0 && HasColumn(df, col) ==>
      (r.Failure? <==> exists i :: 0 <= i < |df| && df[i][col] !in KeySet(t, LocationCode))
    ensures |df| > 0 && HasColumn(df, col) && r.Failure? ==>
      r.error == InvalidLocationValues(col, ColumnValues(df, col) - KeySet(t, LocationCode))
    ensures r.Success? ==> |r.value| == |df| && forall i :: 0 <= i < |df| ==>
      r.value[i].Keys == df[i].Keys &&
      (forall c :: c in df[i] && c != col ==> r.value[i][c] == df[i][c]) &&
      exists k :: 0 <= k < |t| && t[k].locationCode == df[i][col] && t[k].shortName == r.value[i][col]
  {
    Recode(t, df, col, LocationCode, ShortName)
  }

  /** One row recoded through a unique `to` column and back is unchanged. */
  lemma RecodeRowRoundTrip(t: Table, row: Row, col: string, from: TableColumn, to: TableColumn)
    requires UniqueField(t, to)
    requires col in row && row[col] in KeySet(t, from)
    ensures var mid := row[col := Replace(t, from, to, row[col])];
      mid[col] in KeySet(t, to) && mid[col := Replace(t, to, from, mid[col])] == row
  {
  }

  /** Recoding through a table whose `to` column is unique, then back, gives the frame back. */
  lemma RecodeRoundTrip(t: Table, df: Frame, col: string, from: TableColumn, to: TableColumn)
    requires UniqueField(t, to)
    requires Recode(t, df, col, from, to).Success?
    ensures Recode(t, Recode(t, df, col, from, to).value, col, to, from) == Success(df)
  {
    assert |df| > 0 && HasColumn(df, col);
    assert ColumnValues(df, col) - KeySet(t, from) == {};
    var mid := RecodeColumn(t, df, col, from, to);
    assert Recode(t, df, col, from, to).value == mid;
    forall i | 0 <= i < |df|
      ensures col in mid[i] && mid[i][col] in KeySet(t, to)
      ensures mid[i][col := Replace(t, to, from, mid[i][col])] == df[i]
    {
      assert df[i][col] in ColumnValues(df, col);
      RecodeRowRoundTrip(t, df[i], col, from, to);
    }
    assert HasColumn(mid, col);
    assert ColumnValues(mid, col) - KeySet(t, to) == {};
    var back := RecodeColumn(t, mid, col, to, from);
    assert back == df;
  }

  /** With unique location codes, abbreviations recoded to codes and back are unchanged. */
  lemma AbbrToCodeRoundTrip(t: Table, df: Frame, col: string)
    requires UniqueField(t, LocationCode)
    requires LocAbbrToHubverseCode(t, df, col).Success?
    ensures LocHubverseCodeToAbbr(t, LocAbbrToHubverseCode(t, df, col).value, col) == Success(df)
  {
    RecodeRoundTrip(t, df, col, ShortName, LocationCode);
  }

  /** With unique abbreviations, codes recoded to abbreviations and back are unchanged. */
  lemma CodeToAbbrRoundTrip(t: Table, df: Frame, col: string)
    requires UniqueField(t, ShortName)
    requires LocHubverseCodeToAbbr(t, df, col).Success?
    ensures LocAbbrToHubverseCode(t, LocHubverseCodeToAbbr(t, df, col).value, col) == Success(df)
  {
    RecodeRoundTrip(t, df, col, LocationCode, ShortName);
  }

  // ---------------------------------------------------------------------------
  // Location formats and table lookup
  // ---------------------------------------------------------------------------

  /** The location formats, in the order the lookup's error message lists them. */
  const ValidFormats: seq<string> := ["abbr", "hubverse", "long_name"]

  /** The format-to-column-name table `to_location_table_column` consults. */
  const ColumnNames: map<string, string> := map[
    "abbr" := "short_name",
    "hubverse" := "location_code",
    "long_name" := "long_name"
  ]

  /** `to_location_table_column`: the table column a location format is written in. */
  function ToLocationTableColumn(format: string): (r: Result<TableColumn>)
    ensures r.Success? <==> format in ValidFormats
    ensures r.Success? <==> format in ColumnNames
    ensures r.Success? ==> r.value.Name() == ColumnNames[format]
    ensures r.Success? ==> r.value.Format() == format
    ensures r.Failure? ==> r.error == UnknownLocationFormat(format)
  {
    if format == "abbr" then Success(ShortName)
    else if format == "hubverse" then Success(LocationCode)
    else if format == "long_name" then Success(LongName)
    else Failure(UnknownLocationFormat(format))
  }

  /** Every table column is reached from its own format and from no other. */
  lemma ToLocationTableColumnRoundTrip(c: TableColumn, format: string)
    ensures ToLocationTableColumn(c.Format()) == Success(c)
    ensures ToLocationTableColumn(format) == Success(c) ==> format == c.Format()
  {
  }

  /** The records whose column `c` holds `key`, in table order. */
  function Matches(t: Table, c: TableColumn, key: string): (r: Table)
    ensures forall rec :: multiset(r)[rec] == if Field(rec, c) == key then multiset(t)[rec] else 0
    decreases |t|
  {
    if |t| == 0 then []
    else
      assert t == [t[0]] + t[1..];
      (if Field(t[0], c) == key then [t[0]] else []) + Matches(t[1..], c, key)
  }

  /** No record holds `key`: nothing matches. */
  lemma MatchesNone(t: Table, c: TableColumn, key: string)
    requires key !in KeySet(t, c)
    ensures Matches(t, c, key) == []
    decreases |t|
  {
  }

  /**
   One step of the join's count, for one record: `m`, the head identifier's
   matches, adds one copy of each matching record to the count of the rest.
   */
  lemma InnerJoinCountAt(vector: seq<string>, t: Table, c: TableColumn, m: Table, rest: Table, rec: Jurisdiction)
    requires |vector| > 0
    requires multiset(m)[rec] == if Field(rec, c) == vector[0] then multiset(t)[rec] else 0
    requires multiset(rest)[rec] == multiset(vector[1..])[Field(rec, c)] * multiset(t)[rec]
    ensures multiset(m + rest)[rec] == multiset(vector)[Field(rec, c)] * multiset(t)[rec]
  {
    var matched := multiset(m)[rec];
    var before := multiset(vector[1..])[Field(rec, c)];
    var occurrences := multiset(vector)[Field(rec, c)];
    assert multiset(m + rest)[rec] == matched + multiset(rest)[rec];
    HeadCount(vector, Field(rec, c));
    CountStep(multiset(m + rest)[rec], matched, multiset(rest)[rec], before, multiset(t)[rec],
      occurrences, Field(rec, c) == vector[0]);
  }

  /** The count of a value in a sequence splits at the head. */
  lemma HeadCount(s: seq<string>, x: string)
    requires |s| > 0
    ensures multiset(s)[x] == multiset(s[1..])[x] + (if x == s[0] then 1 else 0)
  {
    assert s == [s[0]] + s[1..];
  }

  /** The arithmetic of one join step: a matching head adds one more copy of each match. */
  lemma CountStep(total: nat, matched: nat, restCount: nat, before: nat, copies: nat, occurrences: nat, hit: bool)
    requires total == matched + restCount
    requires restCount == before * copies
    requires hit ==> matched == copies && occurrences == before + 1
    requires !hit ==> matched == 0 && occurrences == before
    ensures total == occurrences * copies
  {
    if hit {
      assert (before + 1) * copies == before * copies + copies;
    }
  }

  /** Each record occurs in `r` once per occurrence of its key in `vector`, times its multiplicity in `t`. */
  ghost predicate JoinCounts(r: Table, vector: seq<string>, t: Table, c: TableColumn) {
    forall rec :: multiset(r)[rec] == multiset(vector)[Field(rec, c)] * multiset(t)[rec]
  }

  /** The head identifier's matches, put before the join of the tail, give the join of the whole vector. */
  lemma InnerJoinCountStep(vector: seq<string>, t: Table, c: TableColumn, m: Table, rest: Table)
    requires |vector| > 0
    requires forall rec :: multiset(m)[rec] == if Field(rec, c) == vector[0] then multiset(t)[rec] else 0
    requires JoinCounts(rest, vector[1..], t, c)
    ensures JoinCounts(m + rest, vector, t, c)
  {
    forall rec
      ensures multiset(m + rest)[rec] == multiset(vector)[Field(rec, c)] * multiset(t)[rec]
    {
      InnerJoinCountAt(vector, t, c, m, rest, rec);
    }
  }

  /**
   The inner join of a vector of identifiers with the table on column `c`,
   taken entry by entry. Each joined row is the matching record itself, since
   the identifier column it adds equals the record's own key column.
   */
  function InnerJoin(vector: seq<string>, t: Table, c: TableColumn): (r: Table)
    ensures forall rec :: multiset(r)[rec] == multiset(vector)[Field(rec, c)] * multiset(t)[rec]
    decreases |vector|
  {
    if |vector| == 0 then []
    else
      var rest := InnerJoin(vector[1..], t, c);
      var m := Matches(t, c, vector[0]);
      InnerJoinCountStep(vector, t, c, m, rest);
      m + rest
  }

  /** The join distributes over concatenation of identifier vectors. */
  lemma {:induction false} InnerJoinAppend(a: seq<string>, b: seq<string>, t: Table, c: TableColumn)
    ensures InnerJoin(a + b, t, c) == InnerJoin(a, t, c) + InnerJoin(b, t, c)
    decreases |a|
  {
    if |a| > 0 {
      assert (a + b)[1..] == a[1..] + b;
      InnerJoinAppend(a[1..], b, t, c);
    } else {
      assert a + b == b;
    }
  }

  /** An identifier no record holds contributes nothing to the join. */
  lemma InnerJoinDropsUnmatched(vector: seq<string>, i: nat, t: Table, c: TableColumn)
    requires i < |vector|
    requires vector[i] !in KeySet(t, c)
    ensures InnerJoin(vector, t, c) == InnerJoin(vector[..i] + vector[i + 1..], t, c)
  {
    MatchesNone(t, c, vector[i]);
    var tail := vector[i + 1..];
    assert InnerJoin([vector[i]] + tail, t, c) == InnerJoin(tail, t, c) by {
      assert ([vector[i]] + tail)[1..] == tail;
    }
    assert vector == vector[..i] + ([vector[i]] + tail);
    InnerJoinAppend(vector[..i], [vector[i]] + tail, t, c);
    InnerJoinAppend(vector[..i], tail, t, c);
  }

  /**
   `location_lookup`: the table records matching a vector of identifiers
   written in `format`, one per matching occurrence, so repeats are kept.
   */
  function LocationLookup(t: Table, vector: seq<string>, format: string): (r: Result<Table>)
    ensures format !in ValidFormats ==> r == Failure(InvalidLocationFormat(format))
    ensures format in ValidFormats && |vector| == 0 ==> r == Failure(EmptyLocationVector)
    ensures r.Success? <==> format in ValidFormats && |vector| > 0
    ensures r.Success? ==> forall rec ::
      multiset(r.value)[rec] == multiset(vector)[Field(rec, ToLocationTableColumn(format).value)] * multiset(t)[rec]
  {
    if format !in ValidFormats then Failure(InvalidLocationFormat(format))
    else if |vector| == 0 then Failure(EmptyLocationVector)
    else Success(InnerJoin(vector, t, ToLocationTableColumn(format).value))
  }

  /** Every looked-up record is a table record whose key occurs in the vector. */
  lemma LocationLookupSound(t: Table, vector: seq<string>, format: string)
    requires LocationLookup(t, vector, format).Success?
    ensures forall rec :: rec in LocationLookup(t, vector, format).value ==>
      rec in t && Field(rec, ToLocationTableColumn(format).value) in vector
  {
    var r := LocationLookup(t, vector, format).value;
    var c := ToLocationTableColumn(format).value;
    forall rec | rec in r
      ensures rec in t && Field(rec, c) in vector
    {
      assert multiset(r)[rec] > 0;
      PositiveProduct(multiset(vector)[Field(rec, c)], multiset(t)[rec]);
    }
  }

  lemma PositiveProduct(a: nat, b: nat)
    requires a * b > 0
    ensures a > 0 && b > 0
  {
  }

  // ---------------------------------------------------------------------------
  // Hub locations
  // ---------------------------------------------------------------------------

  /** `get_hub_locations`: the location list of a hub, the name matched case-insensitively. */
  function GetHubLocations(t: Table, hub: string := "flusight"): (r: Result<seq<string>>)
    ensures r.Success? <==> Lower(hub) in HubNames
    ensures r.Success? ==> r.value == BuildHubLocations(t)
    ensures r.Failure? ==> r.error == UnknownHub(hub, HubNames)
  {
    var key := Lower(hub);
    var hubs := HubLocations(t);
    if key in hubs then Success(hubs[key]) else Failure(UnknownHub(hub, HubNames))
  }

  /** A hub name and its lower-case form select the same list. */
  lemma GetHubLocationsCaseInsensitive(t: Table, hub: string)
    ensures GetHubLocations(t, hub).Success? <==> GetHubLocations(t, Lower(hub)).Success?
    ensures GetHubLocations(t, hub).Success? ==>
      GetHubLocations(t, hub).value == GetHubLocations(t, Lower(hub)).value
  {
    LowerIdempotent(hub);
  }

  /** Upper-case spellings of a hub name are accepted. */
  lemma GetHubLocationsUpperCase(t: Table)
    ensures GetHubLocations(t) == Success(BuildHubLocations(t))
    ensures GetHubLocations(t, "FluSight") == Success(BuildHubLocations(t))
    ensures GetHubLocations(t, "COVID") == Success(BuildHubLocations(t))
    ensures GetHubLocations(t, "nowhere").Failure?
  {
    LowerSpellings();
  }

  /** The lower-case forms of the spellings above. */
  lemma LowerSpellings()
    ensures Lower("flusight") == "flusight"
    ensures Lower("FluSight") == "flusight"
    ensures Lower("COVID") == "covid"
    ensures Lower("nowhere") == "nowhere"
  {
    assert Lower("flusight") == "flusight";
    assert Lower("FluSight") == "flusight";
    assert Lower("COVID") == "covid";
    assert Lower("nowhere") == "nowhere";
  }

  /** The rows whose column `col` holds one of `locations`, in order. */
  function KeepRows(df: Frame, col: string, locations: seq<string>): (r: Frame)
    requires HasColumn(df, col)
    ensures |r| <= |df|
    ensures forall row :: row in r ==> row in df && col in row && row[col] in locations
    ensures forall i :: 0 <= i < |df| && df[i][col] in locations ==> df[i] in r
    decreases |df|
  {
    if |df| == 0 then []
    else
      var rest := KeepRows(df[1..], col, locations);
      assert forall i :: 1 <= i < |df| && df[i][col] in locations ==> df[i] in rest by {
        forall i | 1 <= i < |df| && df[i][col] in locations
          ensures df[i] in rest
        {
          assert df[1..][i - 1] == df[i];
        }
      }
      (if df[0][col] in locations then [df[0]] else []) + rest
  }

  /** The indices, from `lo` on, of the rows whose column `col` holds one of `locations`. */
  function KeptIndices(df: Frame, col: string, locations: seq<string>, lo: nat): (idx: seq<nat>)
    requires lo <= |df|
    requires HasColumn(df, col)
    ensures forall k :: 0 <= k < |idx| ==> lo <= idx[k] < |df|
    ensures forall k, m :: 0 <= k < m < |idx| ==> idx[k] < idx[m]
    ensures forall i :: i in idx <==> lo <= i < |df| && df[i][col] in locations
    decreases |df| - lo
  {
    if lo == |df| then []
    else (if df[lo][col] in locations then [lo] else []) + KeptIndices(df, col, locations, lo + 1)
  }

  /** `rows` are the rows of `df` at the indices `idx`, in that order. */
  predicate RowsAt(rows: Frame, df: Frame, idx: seq<nat>) {
    |rows| == |idx| && forall k :: 0 <= k < |idx| ==> idx[k] < |df| && rows[k] == df[idx[k]]
  }

  lemma RowsAtAppend(a: Frame, b: Frame, df: Frame, ia: seq<nat>, ib: seq<nat>)
    requires RowsAt(a, df, ia) && RowsAt(b, df, ib)
    ensures RowsAt(a + b, df, ia + ib)
  {
  }

  /** Filtering the rows from `lo` on takes the row at `lo` and filters the rest. */
  lemma KeepRowsStep(df: Frame, col: string, locations: seq<string>, lo: nat)
    requires lo < |df|
    requires HasColumn(df, col)
    ensures HasColumn(df[lo..], col) && HasColumn(df[lo + 1..], col)
    ensures KeepRows(df[lo..], col, locations) ==
      (if df[lo][col] in locations then [df[lo]] else []) + KeepRows(df[lo + 1..], col, locations)
  {
  }

  /** The kept rows are exactly the rows at the kept indices, in index order. */
  lemma {:induction false} KeepRowsAtKeptIndices(df: Frame, col: string, locations: seq<string>, lo: nat)
    requires lo <= |df|
    requires HasColumn(df, col)
    ensures HasColumn(df[lo..], col)
    ensures RowsAt(KeepRows(df[lo..], col, locations), df, KeptIndices(df, col, locations, lo))
    decreases |df| - lo
  {
    if lo < |df| {
      KeepRowsAtKeptIndices(df, col, locations, lo + 1);
      KeepRowsStep(df, col, locations, lo);
      var head := if df[lo][col] in locations then [df[lo]] else [];
      var headIdx: seq<nat> := if df[lo][col] in locations then [lo] else [];
      assert RowsAt(head, df, headIdx);
      RowsAtAppend(head, KeepRows(df[lo + 1..], col, locations), df, headIdx, KeptIndices(df, col, locations, lo + 1));
    }
  }

  /**
   `filter_to_hub_locations`: keeps the rows whose location column holds a
   code of the hub's list. An empty frame, a missing column and an unknown
   hub fail, in that order.
   */
  function FilterToHubLocations(t: Table, df: Frame, hub: string := "flusight", col: string := "location"): (r: Result<Frame>)
    ensures |df| == 0 ==> r == Failure(EmptyFrame)
    ensures |df| > 0 && !HasColumn(df, col) ==> r == Failure(MissingColumn(col))
    ensures |df| > 0 && HasColumn(df, col) && Lower(hub) !in HubNames ==>
      r == Failure(UnknownHub(hub, HubNames))
    ensures r.Success? <==> |df| > 0 && HasColumn(df, col) && Lower(hub) in HubNames
    ensures r.Success? ==> |r.value| <= |df|
    ensures r.Success? ==> forall row :: row in r.value ==>
      row in df && col in row && row[col] in BuildHubLocations(t)
    ensures r.Success? ==> forall i :: 0 <= i < |df| && df[i][col] in BuildHubLocations(t) ==>
      df[i] in r.value
  {
    if |df| == 0 then Failure(EmptyFrame)
    else if !HasColumn(df, col) then Failure(MissingColumn(col))
    else
      match GetHubLocations(t, hub)
      case Failure(e) => Failure(e)
      case Success(locations) => Success(KeepRows(df, col, locations))
  }

  /**
   The filtered frame is the subsequence of the input at exactly the indices
   whose location is in the hub list: order is kept and rows are not altered.
   */
  lemma FilterToHubLocationsOrder(t: Table, df: Frame, hub: string, col: string)
    requires FilterToHubLocations(t, df, hub, col).Success?
    ensures HasColumn(df, col)
    ensures var r := FilterToHubLocations(t, df, hub, col).value;
      var idx := KeptIndices(df, col, BuildHubLocations(t), 0);
      |r| == |idx| && forall k :: 0 <= k < |r| ==> r[k] == df[idx[k]]
  {
    KeepRowsAtKeptIndices(df, col, BuildHubLocations(t), 0);
    assert df[0..] == df;
  }
}
