/**
 * The data logic of the `DataTable` MDX component: which cells count as
 * numbers, which columns are laid out as numeric, and how a record key is
 * turned into a column label. The JSX it renders is presentation only.
 */
module DataTable {
  import opened Wrappers
  import opened Text

  /** A cell value, `string | number`. */
  datatype Cell = Number(value: real) | Str(text: string)

  /** One row record: its own keys in `Object.keys` order and the value under each. */
  datatype Row = Row(keys: seq<string>, cells: map<string, Cell>)

  datatype ColumnType = Numeric | TextColumn

  /** What the component renders once `data` is non-empty: the header row of the table. */
  datatype TableHead = TableHead(headers: seq<string>, columnTypes: map<string, ColumnType>, labels: seq<string>)

  /**
   * A row as JavaScript builds it: its keys are distinct and are exactly the
   * keys it holds values under.
   */
  predicate WellFormedRow(row: Row) {
    && (set k | k in row.keys) == row.cells.Keys
    && forall i, j | 0 <= i < j < |row.keys| :: row.keys[i] != row.keys[j]
  }

  /** `row[header]`; a key the row lacks reads as `undefined`. */
  function Lookup(row: Row, header: string): Option<Cell>
  {
    if header in row.cells then Some(row.cells[header]) else None
  }

  // ---------------------------------------------------------------------------
  // isNumeric
  // ---------------------------------------------------------------------------

  /** The class `[$,%\s]` that `isNumeric` deletes before matching. */
  predicate IsFormatting(c: char) {
    c == '$' || c == ',' || c == '%' || IsSpace(c)
  }

  /** `value.replace(/[$,%\s]/g, '')`. */
  function Cleaned(s: string): (r: string)
    ensures |r| <= |s|
  {
    if s == [] then []
    else (if IsFormatting(s[0]) then [] else [s[0]]) + Cleaned(s[1..])
  }

  /** No `$`, `,`, `%` or whitespace is left after the deletion. */
  lemma {:induction false} CleanedHasNoFormatting(s: string)
    ensures forall i | 0 <= i < |Cleaned(s)| :: !IsFormatting(Cleaned(s)[i])
  {
    if s != [] {
      CleanedHasNoFormatting(s[1..]);
      var head := if IsFormatting(s[0]) then [] else [s[0]];
      assert Cleaned(s) == head + Cleaned(s[1..]);
      forall i | 0 <= i < |Cleaned(s)| ensures !IsFormatting(Cleaned(s)[i]) {
        if i >= |head| {
          assert Cleaned(s)[i] == Cleaned(s[1..])[i - |head|];
        }
      }
    }
  }

  /** Deleting formatting characters works piecewise. */
  lemma {:induction false} CleanedConcat(a: string, b: string)
    ensures Cleaned(a + b) == Cleaned(a) + Cleaned(b)
  {
    if a != [] {
      assert (a + b)[1..] == a[1..] + b;
      CleanedConcat(a[1..], b);
    } else {
      assert a + b == b;
    }
  }

  /** A string without formatting characters is left as it is. */
  lemma {:induction false} CleanedUnformatted(s: string)
    requires forall i | 0 <= i < |s| :: !IsFormatting(s[i])
    ensures Cleaned(s) == s
  {
    if s != [] {
      CleanedUnformatted(s[1..]);
      assert s == [s[0]] + s[1..];
    }
  }

  predicate AllDigits(s: string) {
    forall i | 0 <= i < |s| :: IsDigit(s[i])
  }

  /** The length of the run of digits `s` starts with. */
  function LeadingDigits(s: string): (n: nat)
    ensures n <= |s|
    ensures forall i | 0 <= i < n :: IsDigit(s[i])
    ensures n < |s| ==> !IsDigit(s[n])
  {
    if s != [] && IsDigit(s[0]) then 1 + LeadingDigits(s[1..]) else 0
  }

  lemma {:induction false} LeadingDigitsOf(d: string, rest: string)
    requires AllDigits(d)
    requires rest == [] || !IsDigit(rest[0])
    ensures LeadingDigits(d + rest) == |d|
  {
    if d == [] {
      assert d + rest == rest;
    } else {
      assert (d + rest)[1..] == d[1..] + rest;
      LeadingDigitsOf(d[1..], rest);
    }
  }

  /** Drops the optional `[+-]` in front. */
  function StripSign(t: string): string {
    if |t| > 0 && (t[0] == '+' || t[0] == '-') then t[1..] else t
  }

  /** Drops the optional `[%]` at the end. */
  function StripPercent(u: string): string {
    if |u| > 0 && u[|u| - 1] == '%' then u[..|u| - 1] else u
  }

  /** Whether `body` is `\d+\.?\d*` in full, decided by scanning the leading digits. */
  predicate DigitsBody(body: string) {
    var n := LeadingDigits(body);
    n > 0 && (n == |body| || (body[n] == '.' && AllDigits(body[n + 1..])))
  }

  /** `/^[+-]?\d+\.?\d*[%]?$/.test(t)`, decided left to right. */
  predicate MatchesNumber(t: string)
    ensures MatchesNumber(t) ==>
      |t| > 0 && (IsDigit(t[0]) || ((t[0] == '+' || t[0] == '-') && |t| > 1 && IsDigit(t[1])))
  {
    DigitsBody(StripPercent(StripSign(t)))
  }

  /** The pattern's reading of `\d+\.?\d*`: digits, an optional dot, digits. */
  ghost predicate BodyParts(body: string, whole: string, dot: string, frac: string) {
    body == whole + dot + frac
    && |whole| > 0 && AllDigits(whole)
    && (dot == "" || dot == ".")
    && AllDigits(frac)
  }

  /** The pattern's reading of `t`: a sign, the body and a percent sign, each as the pattern allows. */
  ghost predicate NumberParts(t: string, sign: string, whole: string, dot: string, frac: string, pct: string) {
    t == sign + (whole + dot + frac) + pct
    && (sign == "" || sign == "+" || sign == "-")
    && BodyParts(whole + dot + frac, whole, dot, frac)
    && (pct == "" || pct == "%")
  }

  ghost predicate NumberPattern(t: string) {
    exists sign, whole, dot, frac, pct :: NumberParts(t, sign, whole, dot, frac, pct)
  }

  lemma BodyPartsDigits(body: string, whole: string, dot: string, frac: string)
    requires BodyParts(body, whole, dot, frac)
    ensures DigitsBody(body)
    ensures body[0] == whole[0] && IsDigit(body[0])
    ensures body[|body| - 1] != '%'
  {
    if dot == "" {
      assert body == (whole + frac) + [];
      LeadingDigitsOf(whole + frac, []);
    } else {
      assert body == whole + (dot + frac);
      LeadingDigitsOf(whole, dot + frac);
      assert body[|whole| + 1..] == frac;
    }
  }

  lemma DigitsBodyParts(body: string) returns (whole: string, dot: string, frac: string)
    requires DigitsBody(body)
    ensures BodyParts(body, whole, dot, frac)
  {
    var n := LeadingDigits(body);
    whole := body[..n];
    dot := if n == |body| then "" else ".";
    frac := if n == |body| then "" else body[n + 1..];
    if n < |body| {
      assert body == body[..n] + [body[n]] + body[n + 1..];
    } else {
      assert body == whole + dot + frac;
    }
  }

  lemma StripSignOf(sign: string, rest: string)
    requires sign == "" || sign == "+" || sign == "-"
    requires rest != [] && IsDigit(rest[0])
    ensures StripSign(sign + rest) == rest
  {
    if sign != "" {
      assert (sign + rest)[1..] == rest;
    }
  }

  lemma StripPercentOf(body: string, pct: string)
    requires body != [] && body[|body| - 1] != '%'
    requires pct == "" || pct == "%"
    ensures StripPercent(body + pct) == body
  {
    if pct == "" {
      assert body + pct == body;
    } else {
      assert (body + pct)[..|body|] == body;
    }
  }

  lemma PartsMatch(t: string, sign: string, whole: string, dot: string, frac: string, pct: string)
    requires NumberParts(t, sign, whole, dot, frac, pct)
    ensures MatchesNumber(t)
  {
    var body := whole + dot + frac;
    BodyPartsDigits(body, whole, dot, frac);
    StripPercentOf(body, pct);
    assert t == sign + (body + pct);
    StripSignOf(sign, body + pct);
  }

  lemma SignSplit(t: string) returns (sign: string)
    ensures sign == "" || sign == "+" || sign == "-"
    ensures t == sign + StripSign(t)
  {
    if |t| > 0 && (t[0] == '+' || t[0] == '-') {
      sign := [t[0]];
      assert t == [t[0]] + t[1..];
    } else {
      sign := "";
    }
  }

  lemma PercentSplit(u: string) returns (pct: string)
    ensures pct == "" || pct == "%"
    ensures u == StripPercent(u) + pct
  {
    if |u| > 0 && u[|u| - 1] == '%' {
      pct := "%";
      assert u == u[..|u| - 1] + [u[|u| - 1]];
    } else {
      pct := "";
    }
  }

  lemma MatchParts(t: string) returns (sign: string, whole: string, dot: string, frac: string, pct: string)
    requires MatchesNumber(t)
    ensures NumberParts(t, sign, whole, dot, frac, pct)
  {
    sign := SignSplit(t);
    var u := StripSign(t);
    pct := PercentSplit(u);
    var body := StripPercent(u);
    whole, dot, frac := DigitsBodyParts(body);
    assert t == sign + (body + pct);
  }

  /** The left-to-right decision accepts exactly the strings the pattern describes. */
  lemma MatchesNumberIsPattern(t: string)
    ensures MatchesNumber(t) <==> NumberPattern(t)
  {
    if MatchesNumber(t) {
      var sign, whole, dot, frac, pct := MatchParts(t);
    }
    if NumberPattern(t) {
      var sign, whole, dot, frac, pct :| NumberParts(t, sign, whole, dot, frac, pct);
      PartsMatch(t, sign, whole, dot, frac, pct);
    }
  }

  /**
   * `isNumeric`: a number is numeric; a string is numeric when what is left
   * after deleting `[$,%\s]` matches the number pattern; anything else (a
   * missing key) is not.
   */
  function IsNumeric(value: Option<Cell>): (numeric: bool)
    ensures value.None? ==> !numeric
    ensures value.Some? && value.value.Number? ==> numeric
    ensures value.Some? && value.value.Str? ==>
      (numeric <==> exists sign, whole, dot, frac :: NumberParts(Cleaned(value.value.text), sign, whole, dot, frac, ""))
  {
    match value
    case None => false
    case Some(Number(_)) => true
    case Some(Str(s)) =>
      var cleaned := Cleaned(s);
      CleanedIsPattern(s);
      MatchesNumber(cleaned) && cleaned != ""
  }

  /**
   * A text cell is numeric exactly when its cleaned form is a sign, digits and
   * an optional decimal part; the pattern's trailing `%` never gets to match,
   * since every `%` has already been deleted.
   */
  lemma CleanedIsPattern(s: string)
    ensures MatchesNumber(Cleaned(s)) && Cleaned(s) != "" <==>
      exists sign, whole, dot, frac :: NumberParts(Cleaned(s), sign, whole, dot, frac, "")
  {
    var t := Cleaned(s);
    MatchesNumberIsPattern(t);
    if MatchesNumber(t) {
      var sign, whole, dot, frac, pct := MatchParts(t);
      CleanedHasNoFormatting(s);
      assert !IsFormatting(t[|t| - 1]);
      assert pct == "";
    }
    if exists sign, whole, dot, frac :: NumberParts(t, sign, whole, dot, frac, "") {
      var sign, whole, dot, frac :| NumberParts(t, sign, whole, dot, frac, "");
      PartsMatch(t, sign, whole, dot, frac, "");
    }
  }

  /** Inserting a formatting character anywhere does not change whether a text cell is numeric. */
  lemma IsNumericIgnoresFormatting(a: string, b: string, f: char)
    requires IsFormatting(f)
    ensures IsNumeric(Some(Str(a + [f] + b))) == IsNumeric(Some(Str(a + b)))
  {
    CleanedConcat(a + [f], b);
    CleanedConcat(a, [f]);
    CleanedConcat(a, b);
    assert Cleaned([f]) == [];
    assert Cleaned(a) + [] == Cleaned(a);
  }

  // ---------------------------------------------------------------------------
  // getColumnType and the columnTypes record
  // ---------------------------------------------------------------------------

  /** How many leading rows `getColumnType` looks at. */
  const SampleLimit: nat := 5

  /** `n * 0.6` in IEEE-754 double precision, exactly, for the sample sizes that occur. */
  function SampleThreshold(n: nat): (r: real)
    requires n <= SampleLimit
    ensures r <= (3 * n) as real / 5.0
    ensures (3 * n) as real / 5.0 - r < 0.000000000000001
  {
    if n == 0 then 0.0
    else if n == 1 then 0.59999999999999997779553950749686919152736663818359375
    else if n == 2 then 1.1999999999999999555910790149937383830547332763671875
    else if n == 3 then 1.79999999999999982236431605997495353221893310546875
    else if n == 4 then 2.399999999999999911182158029987476766109466552734375
    else 3.0
  }

  /** How many of `rows` hold a numeric value under `header`. */
  function NumericCount(rows: seq<Row>, header: string): (c: nat)
    ensures c <= |rows|
    ensures c == |rows| <==> forall i | 0 <= i < |rows| :: IsNumeric(Lookup(rows[i], header))
    ensures c == 0 <==> forall i | 0 <= i < |rows| :: !IsNumeric(Lookup(rows[i], header))
  {
    if rows == [] then 0
    else (if IsNumeric(Lookup(rows[0], header)) then 1 else 0) + NumericCount(rows[1..], header)
  }

  /**
   * The count is additive: rows are counted one by one, so with the empty and
   * one-row cases this fixes `filter(...).length` for every sample.
   */
  lemma {:induction false} NumericCountAppend(a: seq<Row>, b: seq<Row>, header: string)
    ensures NumericCount(a + b, header) == NumericCount(a, header) + NumericCount(b, header)
  {
    if a == [] {
      assert a + b == b;
    } else {
      assert (a + b)[0] == a[0] && (a + b)[1..] == a[1..] + b;
      NumericCountAppend(a[1..], b, header);
    }
  }

  /** A single row counts one exactly when it holds a numeric value under `header`. */
  lemma NumericCountOne(row: Row, header: string)
    ensures NumericCount([row], header) == if IsNumeric(Lookup(row, header)) then 1 else 0
  {
    assert [row][1..] == [];
  }

  /** The number of rows `getColumnType` samples: `Math.min(data.length, 5)`. */
  function SampleSize(data: seq<Row>): (n: nat)
    ensures n <= SampleLimit && n <= |data|
    ensures n == SampleLimit || n == |data|
  {
    if |data| < SampleLimit then |data| else SampleLimit
  }

  /**
   * `getColumnType`: a column is numeric when at least 60% of the sampled
   * rows hold a numeric value under its key. Over the sample sizes 0 to 5 the
   * floating-point comparison agrees with the integer rule `5c >= 3n`.
   */
  function GetColumnType(data: seq<Row>, header: string): (t: ColumnType)
    ensures t == Numeric <==>
      5 * NumericCount(data[..SampleSize(data)], header) >= 3 * SampleSize(data)
  {
    var sampleSize := SampleSize(data);
    var numericCount := NumericCount(data[..sampleSize], header);
    if numericCount as real >= SampleThreshold(sampleSize) then Numeric else TextColumn
  }

  /** A column every sampled row fills with a number is numeric; one no sampled row does is text. */
  lemma GetColumnTypeExtremes(data: seq<Row>, header: string)
    ensures (forall i | 0 <= i < SampleSize(data) :: IsNumeric(Lookup(data[i], header)))
      ==> GetColumnType(data, header) == Numeric
    ensures (|data| > 0 && forall i | 0 <= i < SampleSize(data) :: !IsNumeric(Lookup(data[i], header)))
      ==> GetColumnType(data, header) == TextColumn
  {
    var sample := data[..SampleSize(data)];
    assert forall i | 0 <= i < |sample| :: sample[i] == data[i];
  }

  /** Rows after the fifth never change a column's type. */
  lemma GetColumnTypeIgnoresLaterRows(data: seq<Row>, more: seq<Row>, header: string)
    requires |data| >= SampleLimit
    ensures GetColumnType(data + more, header) == GetColumnType(data, header)
  {
    assert (data + more)[..SampleLimit] == data[..SampleLimit];
  }

  /** `headers.reduce((acc, header) => { acc[header] = getColumnType(header); return acc; }, acc)`. */
  function ColumnTypesFrom(data: seq<Row>, headers: seq<string>, acc: map<string, ColumnType>): (m: map<string, ColumnType>)
    ensures m.Keys == acc.Keys + (set h | h in headers)
    ensures forall h | h in headers :: m[h] == GetColumnType(data, h)
    ensures forall h | h in acc && h !in headers :: m[h] == acc[h]
    decreases |headers|
  {
    if headers == [] then acc
    else ColumnTypesFrom(data, headers[1..], acc[headers[0] := GetColumnType(data, headers[0])])
  }

  /** `columnTypes`: one entry per header, holding that column's type. */
  function ColumnTypes(data: seq<Row>, headers: seq<string>): (m: map<string, ColumnType>)
    ensures m.Keys == set h | h in headers
    ensures forall h | h in headers :: m[h] == GetColumnType(data, h)
  {
    ColumnTypesFrom(data, headers, map[])
  }

  // ---------------------------------------------------------------------------
  // formatHeader
  // ---------------------------------------------------------------------------

  /** The class `[_\s]` whose runs `formatHeader` splits on. */
  predicate IsSeparator(c: char) {
    c == '_' || IsSpace(c)
  }

  /** The end of the run of separators starting at `q`. */
  function RunEnd(s: string, q: nat): (e: nat)
    requires q <= |s|
    ensures q <= e <= |s|
    ensures forall i | q <= i < e :: IsSeparator(s[i])
    ensures e < |s| ==> !IsSeparator(s[e])
    decreases |s| - q
  {
    if q < |s| && IsSeparator(s[q]) then RunEnd(s, q + 1) else q
  }

  /**
   * Where the pattern `/(?=[A-Z])|[_\s]+/` matches when tried exactly at `q`:
   * the end of the match, or `None`. The lookahead alternative is tried first
   * and matches the empty string.
   */
  function MatchAt(s: string, q: nat): (r: Option<nat>)
    requires q < |s|
    ensures IsUpper(s[q]) ==> r == Some(q)
    ensures !IsUpper(s[q]) && IsSeparator(s[q]) ==>
      && r.Some? && q < r.value <= |s|
      && (forall i | q <= i < r.value :: IsSeparator(s[i]))
      && (r.value < |s| ==> !IsSeparator(s[r.value]))
    ensures !IsUpper(s[q]) && !IsSeparator(s[q]) ==> r.None?
  {
    if IsUpper(s[q]) then Some(q)
    else if IsSeparator(s[q]) then Some(RunEnd(s, q))
    else None
  }

  /**
   * The loop of `String.prototype.split` with a regular expression: `p` is
   * where the current piece starts and `q` where the next match is tried. An
   * empty match at the start of the piece moves `q` on; any other match ends
   * the piece.
   */
  function SplitFrom(s: string, p: nat, q: nat): (pieces: seq<string>)
    requires p <= q <= |s|
    ensures |pieces| >= 1
    decreases |s| - q, q - p
  {
    if q == |s| then [s[p..]]
    else match MatchAt(s, q)
      case None => SplitFrom(s, p, q + 1)
      case Some(e) =>
        if e == p then SplitFrom(s, p, q + 1)
        else [s[p..q]] + SplitFrom(s, e, e)
  }

  /** `header.split(/(?=[A-Z])|[_\s]+/)`. */
  function SplitHeader(header: string): (words: seq<string>)
    ensures |words| >= 1
  {
    SplitFrom(header, 0, 0)
  }

  /** Every piece of a split key is a word. */
  lemma SplitHeaderWords(header: string)
    ensures AllWords(SplitHeader(header))
  {
    SplitFromWords(header, 0, 0);
  }

  /** The pieces of a split key put back together are the key with its separators deleted. */
  lemma SplitHeaderConcat(header: string)
    ensures Concat(SplitHeader(header)) == StripSeparators(header)
  {
    SplitFromWords(header, 0, 0);
    assert header[0..] == header;
  }

  /** A piece the split can produce: no separator, and a capital letter only in front. */
  ghost predicate IsWord(w: string) {
    (forall i | 0 <= i < |w| :: !IsSeparator(w[i]))
    && (forall i | 0 < i < |w| :: !IsUpper(w[i]))
  }

  /** `s` with every separator deleted. */
  function StripSeparators(s: string): (r: string)
    ensures forall i | 0 <= i < |r| :: !IsSeparator(r[i])
  {
    if s == [] then []
    else (if IsSeparator(s[0]) then [] else [s[0]]) + StripSeparators(s[1..])
  }

  lemma {:induction false} StripSeparatorsConcat(a: string, b: string)
    ensures StripSeparators(a + b) == StripSeparators(a) + StripSeparators(b)
  {
    if a != [] {
      assert (a + b)[1..] == a[1..] + b;
      StripSeparatorsConcat(a[1..], b);
    } else {
      assert a + b == b;
    }
  }

  lemma {:induction false} StripSeparatorsOfWord(s: string)
    requires forall i | 0 <= i < |s| :: !IsSeparator(s[i])
    ensures StripSeparators(s) == s
  {
    if s != [] {
      StripSeparatorsOfWord(s[1..]);
      assert s == [s[0]] + s[1..];
    }
  }

  lemma {:induction false} StripSeparatorsOfRun(s: string)
    requires forall i | 0 <= i < |s| :: IsSeparator(s[i])
    ensures StripSeparators(s) == []
  {
    if s != [] {
      StripSeparatorsOfRun(s[1..]);
    }
  }

  ghost predicate AllWords(pieces: seq<string>) {
    forall k | 0 <= k < |pieces| :: IsWord(pieces[k])
  }

  /** A piece grows by one character that is no separator, and no capital unless it comes first. */
  lemma WordExtend(s: string, p: nat, q: nat)
    requires p <= q < |s|
    requires IsWord(s[p..q])
    requires !IsSeparator(s[q])
    requires p == q || !IsUpper(s[q])
    ensures IsWord(s[p..q + 1])
  {
    var w, v := s[p..q + 1], s[p..q];
    assert forall i | 0 <= i < |v| :: w[i] == v[i];
    assert w[q - p] == s[q];
    assert forall i | 0 <= i < |w| :: !IsSeparator(w[i]);
    assert forall i | 0 < i < |w| :: !IsUpper(w[i]);
  }

  /** Deleting separators from the rest of `s` keeps a finished piece and drops the separator run after it. */
  lemma PieceStrip(s: string, p: nat, q: nat, e: nat)
    requires p <= q <= e <= |s|
    requires IsWord(s[p..q])
    requires forall i | q <= i < e :: IsSeparator(s[i])
    ensures StripSeparators(s[p..]) == s[p..q] + StripSeparators(s[e..])
  {
    assert s[p..] == s[p..q] + (s[q..e] + s[e..]);
    StripSeparatorsConcat(s[p..q], s[q..e] + s[e..]);
    StripSeparatorsConcat(s[q..e], s[e..]);
    StripSeparatorsOfWord(s[p..q]);
    StripSeparatorsOfRun(s[q..e]);
  }

  lemma ConcatCons(x: string, rest: seq<string>)
    ensures Concat([x] + rest) == x + Concat(rest)
  {
    if rest == [] {
      assert [x] + rest == [x];
    } else {
      JoinCons("", x, rest);
    }
  }

  /**
   * Every piece of the split is a word, and the pieces put back together are
   * the input with its separators deleted: the split loses nothing else.
   */
  lemma {:induction false} SplitFromWords(s: string, p: nat, q: nat)
    requires p <= q <= |s|
    requires IsWord(s[p..q])
    ensures AllWords(SplitFrom(s, p, q))
    ensures Concat(SplitFrom(s, p, q)) == StripSeparators(s[p..])
    decreases |s| - q, q - p
  {
    if q == |s| {
      assert s[p..] == s[p..q];
      StripSeparatorsOfWord(s[p..]);
    } else {
      var m := MatchAt(s, q);
      if m.None? {
        WordExtend(s, p, q);
        SplitFromWords(s, p, q + 1);
      } else if m.value == p {
        WordExtend(s, p, q);
        SplitFromWords(s, p, q + 1);
      } else {
        var e := m.value;
        var rest := SplitFrom(s, e, e);
        SplitFromWords(s, e, e);
        assert SplitFrom(s, p, q) == [s[p..q]] + rest;
        ConcatCons(s[p..q], rest);
        PieceStrip(s, p, q, e);
      }
    }
  }

  /** `word.charAt(0).toUpperCase() + word.slice(1).toLowerCase()`. */
  function Capitalize(w: string): (c: string)
    ensures |c| == |w|
    ensures LowerStr(c) == LowerStr(w)
    ensures |c| > 0 ==> !IsLower(c[0])
    ensures forall i | 0 < i < |c| :: !IsUpper(c[i])
    ensures forall i | 0 <= i < |c| :: IsSeparator(c[i]) == IsSeparator(w[i])
  {
    if w == "" then "" else [ToUpper(w[0])] + LowerStr(w[1..])
  }

  function Capitalized(words: seq<string>): (r: seq<string>)
    ensures |r| == |words|
    ensures forall k | 0 <= k < |words| :: r[k] == Capitalize(words[k])
  {
    seq(|words|, k requires 0 <= k < |words| => Capitalize(words[k]))
  }

  /** `formatHeader`: split into words, capitalize each, join with single spaces. */
  function FormatHeader(header: string): (caption: string)
    ensures forall c | c in caption && IsSeparator(c) :: c == ' '
  {
    var words := SplitHeader(header);
    SplitHeaderWords(header);
    LabelSeparators(words);
    Join(" ", Capitalized(words))
  }

  /** Joining capitalized words with spaces leaves no separator but the spaces. */
  lemma LabelSeparators(words: seq<string>)
    requires AllWords(words)
    ensures forall c | c in Join(" ", Capitalized(words)) && IsSeparator(c) :: c == ' '
  {
    var caps := Capitalized(words);
    forall c | c in Join(" ", caps) && IsSeparator(c) ensures c == ' ' {
      if c != ' ' {
        forall k | 0 <= k < |caps| ensures c !in caps[k] {
          assert IsWord(words[k]);
          assert forall i | 0 <= i < |caps[k]| :: !IsSeparator(caps[k][i]);
        }
        JoinAvoids(" ", caps, c);
      }
    }
  }

  lemma {:induction false} LowerStrConcat(a: string, b: string)
    ensures LowerStr(a + b) == LowerStr(a) + LowerStr(b)
  {
    assert forall i | 0 <= i < |a + b| :: LowerStr(a + b)[i] == (LowerStr(a) + LowerStr(b))[i];
  }

  lemma {:induction false} LowerConcatCapitalized(words: seq<string>)
    ensures LowerStr(Concat(Capitalized(words))) == LowerStr(Concat(words))
  {
    if words != [] {
      var caps := Capitalized(words);
      assert caps[1..] == Capitalized(words[1..]);
      LowerConcatCapitalized(words[1..]);
      LowerStrConcat(caps[0], Concat(caps[1..]));
      LowerStrConcat(words[0], Concat(words[1..]));
    }
  }

  /**
   * The label splits back on spaces into exactly the capitalized words: none
   * holds a separator, each starts with a non-lower-case character and has no
   * capital after it, no underscore survives, and apart from case the words
   * spell the key with its separators deleted.
   */
  lemma FormatHeaderWords(header: string)
    ensures SplitOn(FormatHeader(header), ' ') == Capitalized(SplitHeader(header))
    ensures forall k | 0 <= k < |SplitOn(FormatHeader(header), ' ')| ::
      var w := SplitOn(FormatHeader(header), ' ')[k];
      (forall i | 0 <= i < |w| :: !IsSeparator(w[i]))
      && (|w| > 0 ==> !IsLower(w[0]))
      && (forall i | 0 < i < |w| :: !IsUpper(w[i]))
    ensures '_' !in FormatHeader(header)
  {
    var words := SplitHeader(header);
    var caps := Capitalized(words);
    SplitHeaderWords(header);
    assert forall k | 0 <= k < |caps| :: ' ' !in caps[k] by {
      forall k | 0 <= k < |caps|
        ensures ' ' !in caps[k]
      {
        assert IsWord(words[k]);
        assert forall i | 0 <= i < |caps[k]| :: !IsSeparator(caps[k][i]);
      }
    }
    SplitOnJoin(caps, ' ');
    assert IsSeparator('_');
  }

  /** Ignoring case, the words of the label spell the key without its separators. */
  lemma FormatHeaderLetters(header: string)
    ensures LowerStr(Concat(SplitOn(FormatHeader(header), ' '))) == LowerStr(StripSeparators(header))
  {
    FormatHeaderWords(header);
    SplitHeaderConcat(header);
    LowerConcatCapitalized(SplitHeader(header));
  }

  /** Over characters that are neither capitals nor separators the split only moves `q` on. */
  lemma {:induction false} SplitFromPlain(s: string, p: nat, q: nat, r: nat)
    requires p <= q <= r <= |s|
    requires forall i | q <= i < r :: !IsUpper(s[i]) && !IsSeparator(s[i])
    ensures SplitFrom(s, p, q) == SplitFrom(s, p, r)
    decreases r - q
  {
    if q < r {
      assert MatchAt(s, q).None?;
      SplitFromPlain(s, p, q + 1, r);
    }
  }

  lemma {:induction false} RunEndShift(x: string, b: string, q: nat)
    requires q <= |b|
    ensures RunEnd(x + b, |x| + q) == |x| + RunEnd(b, q)
    decreases |b| - q
  {
    if q < |b| {
      assert (x + b)[|x| + q] == b[q];
      if IsSeparator(b[q]) {
        RunEndShift(x, b, q + 1);
      }
    }
  }

  lemma MatchAtShift(x: string, b: string, q: nat)
    requires q < |b|
    ensures MatchAt(x + b, |x| + q) == if MatchAt(b, q).Some? then Some(|x| + MatchAt(b, q).value) else None
  {
    assert (x + b)[|x| + q] == b[q];
    if !IsUpper(b[q]) && IsSeparator(b[q]) {
      RunEndShift(x, b, q);
    }
  }

  /** What comes before the current piece does not affect the rest of the split. */
  lemma {:induction false} SplitFromShift(x: string, b: string, p: nat, q: nat)
    requires p <= q <= |b|
    ensures SplitFrom(x + b, |x| + p, |x| + q) == SplitFrom(b, p, q)
    decreases |b| - q, q - p
  {
    if q == |b| {
      SplitFromEndShift(x, b, p);
    } else if MatchAt(b, q).None? || MatchAt(b, q).value == p {
      SplitFromSkipShift(x, b, p, q);
      SplitFromShift(x, b, p, q + 1);
    } else {
      var e := MatchAt(b, q).value;
      SplitFromCutShift(x, b, p, q, e);
      SplitFromShift(x, b, e, e);
    }
  }

  /** Where no piece ends at `q`, the split of `x + b` moves on just as the split of `b` does. */
  lemma SplitFromSkipShift(x: string, b: string, p: nat, q: nat)
    requires p <= q < |b|
    requires MatchAt(b, q).None? || MatchAt(b, q).value == p
    ensures SplitFrom(x + b, |x| + p, |x| + q) == SplitFrom(x + b, |x| + p, |x| + q + 1)
    ensures SplitFrom(b, p, q) == SplitFrom(b, p, q + 1)
  {
    MatchAtShift(x, b, q);
  }

  /** Where a piece ends at `q`, both splits cut the same piece and go on after the match. */
  lemma SplitFromCutShift(x: string, b: string, p: nat, q: nat, e: nat)
    requires p <= q < |b|
    requires MatchAt(b, q) == Some(e) && e != p
    ensures e <= |b|
    ensures SplitFrom(x + b, |x| + p, |x| + q) == [b[p..q]] + SplitFrom(x + b, |x| + e, |x| + e)
    ensures SplitFrom(b, p, q) == [b[p..q]] + SplitFrom(b, e, e)
  {
    MatchAtShift(x, b, q);
    PieceShift(x, b, p, q);
  }

  lemma SplitFromEndShift(x: string, b: string, p: nat)
    requires p <= |b|
    ensures SplitFrom(x + b, |x| + p, |x| + |b|) == [b[p..]]
  {
    assert (x + b)[|x| + p..] == b[p..];
  }

  lemma PieceShift(x: string, b: string, p: nat, q: nat)
    requires p <= q <= |b|
    ensures (x + b)[|x| + p..|x| + q] == b[p..q]
  {
  }

  /** The split walks over a leading word without producing a piece. */
  lemma SplitFromWordPrefix(s: string, n: nat)
    requires 0 < n <= |s| && IsWord(s[..n])
    ensures SplitFrom(s, 0, 0) == SplitFrom(s, 0, n)
  {
    assert s[0] == s[..n][0];
    assert forall i | 1 <= i < n :: s[i] == s[..n][i];
    assert SplitFrom(s, 0, 0) == SplitFrom(s, 0, 1);
    SplitFromPlain(s, 0, 1, n);
  }

  /** A single word is not split at all. */
  lemma SplitHeaderOfWord(w: string)
    requires IsWord(w)
    ensures SplitHeader(w) == [w]
  {
    if w != "" {
      assert w[..|w|] == w;
      SplitFromWordPrefix(w, |w|);
    }
    assert w[0..] == w;
  }

  /** A capital letter after a word starts the next word. */
  lemma SplitHeaderAtCapital(a: string, b: string)
    requires IsWord(a) && a != ""
    requires b != "" && IsUpper(b[0])
    ensures SplitHeader(a + b) == [a] + SplitHeader(b)
  {
    var s := a + b;
    assert s[..|a|] == a;
    SplitFromWordPrefix(s, |a|);
    assert s[|a|] == b[0];
    assert SplitFrom(s, 0, |a|) == [s[0..|a|]] + SplitFrom(s, |a|, |a|);
    SplitFromShift(a, b, 0, 0);
  }

  /** A run of separators after a word ends it and is dropped; the split goes on after the run. */
  lemma SplitHeaderAtRun(a: string, r: string, b: string)
    requires IsWord(a) && a != ""
    requires r != "" && forall i | 0 <= i < |r| :: IsSeparator(r[i])
    requires b == "" || !IsSeparator(b[0])
    ensures SplitHeader(a + r + b) == [a] + SplitHeader(b)
  {
    var x := a + r;
    var s := x + b;
    assert s[..|a|] == a;
    SplitFromWordPrefix(s, |a|);
    assert forall i | |a| <= i < |x| :: s[i] == r[i - |a|];
    assert |x| < |s| ==> s[|x|] == b[0];
    assert MatchAt(s, |a|) == Some(|x|);
    assert SplitFrom(s, 0, |a|) == [s[0..|a|]] + SplitFrom(s, |x|, |x|);
    SplitFromShift(x, b, 0, 0);
  }

  /**
   * A run of separators at the very start ends an empty first word, so a key
   * such as `_id` splits into `""` and `id`.
   */
  lemma SplitHeaderAtLeadingRun(r: string, b: string)
    requires r != "" && forall i | 0 <= i < |r| :: IsSeparator(r[i])
    requires b == "" || !IsSeparator(b[0])
    ensures SplitHeader(r + b) == [""] + SplitHeader(b)
  {
    var s := r + b;
    assert forall i | 0 <= i < |r| :: s[i] == r[i];
    assert |r| < |s| ==> s[|r|] == b[0];
    assert MatchAt(s, 0) == Some(|r|);
    assert SplitFrom(s, 0, 0) == [s[0..0]] + SplitFrom(s, |r|, |r|);
    SplitFromShift(r, b, 0, 0);
  }

  /** A key that splits into two words gets the two capitalized words joined by one space. */
  lemma FormatHeaderOfTwo(key: string, a: string, b: string)
    requires SplitHeader(key) == [a, b]
    ensures FormatHeader(key) == Capitalize(a) + " " + Capitalize(b)
  {
    var caps := Capitalized([a, b]);
    assert caps == [Capitalize(a), Capitalize(b)];
    JoinCons(" ", caps[0], caps[1..]);
    assert caps[1..] == [Capitalize(b)];
  }

  /**
   * A camel-case key such as `camelCase`: the capital starts a new word, and
   * the label is the two words capitalized with one space between them
   * (`Camel Case`).
   */
  lemma CamelCaseLabel(a: string, b: string)
    requires a != "" && IsWord(a)
    requires b != "" && IsWord(b) && IsUpper(b[0])
    ensures FormatHeader(a + b) == Capitalize(a) + " " + Capitalize(b)
  {
    SplitHeaderAtCapital(a, b);
    SplitHeaderOfWord(b);
    FormatHeaderOfTwo(a + b, a, b);
  }

  /**
   * A snake-case key such as `snake_case`: the underscore separates the words
   * and disappears (`Snake Case`).
   */
  lemma SnakeCaseLabel(a: string, b: string)
    requires a != "" && IsWord(a)
    requires b != "" && IsWord(b)
    ensures FormatHeader(a + "_" + b) == Capitalize(a) + " " + Capitalize(b)
  {
    var r := "_";
    assert IsSeparator(r[0]);
    SplitHeaderAtRun(a, r, b);
    SplitHeaderOfWord(b);
    FormatHeaderOfTwo(a + r + b, a, b);
  }

  // ---------------------------------------------------------------------------
  // The table as laid out
  // ---------------------------------------------------------------------------

  /**
   * What the component works out before rendering: nothing for empty data
   * (it shows "No data available" instead), otherwise the keys of the first
   * row as headers, every header's column type and every header's label.
   */
  function Layout(data: seq<Row>): (r: Option<TableHead>)
    ensures r.None? <==> |data| == 0
    ensures r.Some? ==> r.value.headers == data[0].keys && |r.value.labels| == |r.value.headers|
    ensures r.Some? ==> r.value.columnTypes.Keys == set h | h in data[0].keys
    ensures r.Some? ==> forall h | h in data[0].keys :: r.value.columnTypes[h] == GetColumnType(data, h)
    ensures r.Some? ==> forall i | 0 <= i < |r.value.labels| :: r.value.labels[i] == FormatHeader(r.value.headers[i])
  {
    if |data| == 0 then None
    else
      var headers := data[0].keys;
      Some(TableHead(headers, ColumnTypes(data, headers),
                     seq(|headers|, i requires 0 <= i < |headers| => FormatHeader(headers[i]))))
  }

  /**
   * For a well-formed first row, every header reads a value from that row and
   * the column types hold exactly one entry per header.
   */
  lemma LayoutOfWellFormedRow(data: seq<Row>)
    requires |data| > 0 && WellFormedRow(data[0])
    ensures var head := Layout(data).value;
      && (forall i | 0 <= i < |head.headers| :: Lookup(data[0], head.headers[i]).Some?)
      && |head.columnTypes| == |head.headers|
  {
    var keys := data[0].keys;
    DistinctKeys(keys);
    assert Layout(data).value.columnTypes.Keys == set k | k in keys;
  }

  /** A sequence without repetitions has as many distinct elements as entries. */
  lemma {:induction false} DistinctKeys(keys: seq<string>)
    requires forall i, j | 0 <= i < j < |keys| :: keys[i] != keys[j]
    ensures |set k | k in keys| == |keys|
  {
    if keys != [] {
      var rest := keys[1..];
      DistinctKeys(rest);
      assert keys[0] !in rest by {
        forall j | 0 <= j < |rest| ensures rest[j] != keys[0] {
          assert rest[j] == keys[j + 1];
        }
      }
      assert (set k | k in keys) == {keys[0]} + (set k | k in rest) by {
        assert keys == [keys[0]] + rest;
      }
    }
  }

  /**
   * A currency amount with a thousands separator, such as `$1,234.56`, is
   * numeric: the `$` and `,` are deleted and digits, a dot and digits remain.
   */
  lemma CurrencyIsNumeric(thousands: string, rest: string, cents: string)
    requires thousands != "" && AllDigits(thousands) && AllDigits(rest) && AllDigits(cents)
    ensures IsNumeric(Some(Str("$" + thousands + "," + rest + "." + cents)))
  {
    var number := thousands + rest + "." + cents;
    CurrencyCleaned(thousands, rest, cents);
    DecimalMatches(number, thousands + rest, cents);
    NumericWhenCleanedMatches("$" + thousands + "," + rest + "." + cents, number);
  }

  lemma CurrencyCleaned(thousands: string, rest: string, cents: string)
    requires AllDigits(thousands) && AllDigits(rest) && AllDigits(cents)
    ensures Cleaned("$" + thousands + "," + rest + "." + cents) == thousands + rest + "." + cents
  {
    var a := "$" + thousands;
    var b := a + ",";
    var c := b + rest;
    var d := c + ".";
    CleanedChar('$');
    CleanedChar(',');
    CleanedChar('.');
    CleanedDigits(thousands);
    CleanedDigits(rest);
    CleanedDigits(cents);
    CleanedConcat("$", thousands);
    assert Cleaned(a) == thousands;
    CleanedConcat(a, ",");
    assert Cleaned(b) == thousands;
    CleanedConcat(b, rest);
    assert Cleaned(c) == thousands + rest;
    CleanedConcat(c, ".");
    assert Cleaned(d) == thousands + rest + ".";
    CleanedConcat(d, cents);
  }

  /** Digits carry no formatting. */
  lemma {:induction false} CleanedDigits(s: string)
    requires AllDigits(s)
    ensures Cleaned(s) == s
  {
    if s != [] {
      assert AllDigits(s[1..]) by {
        forall i | 0 <= i < |s[1..]| ensures IsDigit(s[1..][i]) {
          assert s[1..][i] == s[i + 1];
        }
      }
      CleanedDigits(s[1..]);
    }
  }

  /** A single character survives the deletion exactly when it is not formatting. */
  lemma CleanedChar(c: char)
    ensures Cleaned([c]) == if IsFormatting(c) then [] else [c]
  {
    assert [c][1..] == [];
  }

  /** Digits, a dot and digits form a number. */
  lemma DecimalMatches(t: string, whole: string, frac: string)
    requires t == whole + "." + frac
    requires whole != "" && AllDigits(whole) && AllDigits(frac)
    ensures MatchesNumber(t) && t != ""
  {
    PartsMatch(t, "", whole, ".", frac, "");
  }

  /** A percentage such as `12.5%` is numeric: the `%` is deleted before the pattern is tried. */
  lemma PercentIsNumeric(whole: string, frac: string)
    requires whole != "" && AllDigits(whole) && AllDigits(frac)
    ensures IsNumeric(Some(Str(whole + "." + frac + "%")))
  {
    var number := whole + "." + frac;
    PercentCleaned(number, whole, frac);
    DecimalMatches(number, whole, frac);
    NumericWhenCleanedMatches(number + "%", number);
  }

  lemma PercentCleaned(number: string, whole: string, frac: string)
    requires number == whole + "." + frac
    requires AllDigits(whole) && AllDigits(frac)
    ensures Cleaned(number + "%") == number
  {
    CleanedChar('.');
    CleanedChar('%');
    CleanedDigits(whole);
    CleanedDigits(frac);
    CleanedConcat(whole, ".");
    assert Cleaned(whole + ".") == whole + ".";
    CleanedConcat(whole + ".", frac);
    assert Cleaned(number) == number;
    CleanedConcat(number, "%");
  }

  /** A text cell is numeric once its cleaned form is known to match. */
  lemma NumericWhenCleanedMatches(text: string, t: string)
    requires Cleaned(text) == t && MatchesNumber(t) && t != ""
    ensures IsNumeric(Some(Str(text)))
  {
  }

  /** Digits and dots carry no formatting. */
  lemma CleanedKeepsDigitsAndDots(s: string)
    requires forall i | 0 <= i < |s| :: IsDigit(s[i]) || s[i] == '.'
    ensures Cleaned(s) == s
  {
    CleanedUnformatted(s);
  }

  /** A version-like string with two dots, such as `1.2.3`, is not numeric. */
  lemma TwoDotsNotNumeric(major: string, minor: string, patch: string)
    requires major != "" && AllDigits(major) && AllDigits(minor) && AllDigits(patch)
    ensures !IsNumeric(Some(Str(major + "." + minor + "." + patch)))
  {
    var t := major + "." + minor + "." + patch;
    CleanedKeepsDigitsAndDots(t);
    TwoDotsNoMatch(major, minor, patch);
  }

  lemma TwoDotsNoMatch(major: string, minor: string, patch: string)
    requires major != "" && AllDigits(major) && AllDigits(minor) && AllDigits(patch)
    ensures !MatchesNumber(major + "." + minor + "." + patch)
  {
    var after := "." + minor + "." + patch;
    var t := major + after;
    assert t == major + "." + minor + "." + patch;
    assert t[0] == major[0];
    assert StripSign(t) == t;
    assert t[|t| - 1] == '.' || t[|t| - 1] == patch[|patch| - 1];
    assert StripPercent(t) == t;
    LeadingDigitsOf(major, after);
    assert t[|major| + 1..] == minor + "." + patch;
    assert (minor + "." + patch)[|minor|] == '.';
  }
}
