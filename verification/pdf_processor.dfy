/**
 * Page selection and page subsetting for uploaded PDFs (utils/pdfProcessor.js).
 *
 * A selection such as "1,3,5-8" names one-based pages; `ParsePageNumbers` turns it into the
 * strictly ascending list of zero-based indices it names, or `None` ("all pages") for blank
 * input. `ExtractPdfPages` copies the requested pages that exist, in the order given, into a
 * new document. A PDF is a sequence of opaque pages; loading and saving belong to the PDF
 * library and are passed in as functions.
 */
module PdfProcessor {
  import opened Results
  import opened JsString

  /** The length of the run of ASCII digits that starts `s`. */
  function DigitRun(s: string): (n: nat)
    ensures n <= |s|
    ensures forall k :: 0 <= k < n ==> IsDigit(s[k])
    ensures n < |s| ==> !IsDigit(s[n])
  {
    if s == [] || !IsDigit(s[0]) then 0 else 1 + DigitRun(s[1..])
  }

  /** The value of a string of decimal digits. */
  function DecimalValue(digits: string): nat
    requires forall k :: 0 <= k < |digits| ==> IsDigit(digits[k])
  {
    if digits == [] then 0
    else
      assert IsDigit(digits[|digits| - 1]);
      10 * DecimalValue(digits[..|digits| - 1]) + (digits[|digits| - 1] as int - '0' as int)
  }

  /** The decimal rendering of `n`, without sign or leading zeros. */
  function Decimal(n: nat): (s: string)
    ensures s != [] && forall k :: 0 <= k < |s| ==> IsDigit(s[k])
  {
    if n < 10 then [('0' as int + n) as char]
    else Decimal(n / 10) + [('0' as int + n % 10) as char]
  }

  /**
   * `parseInt(s, 10)`: leading white space is skipped, one optional sign is read, then the
   * longest run of decimal digits; with no digit the result is NaN, here `None`. Text
   * without a '-' never parses to a negative number.
   */
  function ParseInt(s: string): (r: Option<int>)
  {
    var t := TrimStart(s);
    var negative := t != [] && t[0] == '-';
    var body := if t != [] && (t[0] == '+' || t[0] == '-') then t[1..] else t;
    var n := DigitRun(body);
    if n == 0 then None
    else
      var v: int := DecimalValue(body[..n]);
      Some(if negative then -v else v)
  }

  /** Text without a '-' never parses to a negative number, and a number needs a digit. */
  lemma ParseIntSign(s: string)
    ensures '-' !in s ==> ParseInt(s).None? || ParseInt(s).value >= 0
    ensures ParseInt(s).Some? ==> exists k :: 0 <= k < |s| && IsDigit(s[k])
  {
    var t := TrimStart(s);
    TrimStartSuffix(s);
    var body := if t != [] && (t[0] == '+' || t[0] == '-') then t[1..] else t;
    if DigitRun(body) > 0 {
      assert body[0] == s[|s| - |body|];
    }
    if t != [] && t[0] == '-' {
      assert t[0] == s[|s| - |t|];
    }
  }

  /** Reading back a rendered number gives the number, whatever non-digit text follows it. */
  lemma {:induction false} DecimalValueOfDecimal(n: nat)
    ensures DecimalValue(Decimal(n)) == n
  {
    if n >= 10 {
      var d := Decimal(n / 10);
      var s := d + [('0' as int + n % 10) as char];
      assert s[..|s| - 1] == d;
      DecimalValueOfDecimal(n / 10);
    }
  }

  /** `parseInt` reads back what `Decimal` renders, up to the first non-digit. */
  lemma ParseIntOfDecimal(n: nat, rest: string)
    requires rest == [] || !IsDigit(rest[0])
    ensures ParseInt(Decimal(n) + rest) == Some(n)
  {
    var s := Decimal(n) + rest;
    assert s[0] == Decimal(n)[0] && IsDigit(s[0]);
    assert !IsWhiteSpace(s[0]);
    assert TrimStart(s) == s;
    assert DigitRun(s) >= |Decimal(n)| by {
      DigitRunAtLeast(s, |Decimal(n)|);
    }
    if rest != [] {
      assert s[|Decimal(n)|] == rest[0];
    }
    assert s[..|Decimal(n)|] == Decimal(n);
    DecimalValueOfDecimal(n);
  }

  lemma {:induction false} DigitRunAtLeast(s: string, m: nat)
    requires m <= |s| && forall k :: 0 <= k < m ==> IsDigit(s[k])
    ensures DigitRun(s) >= m
  {
    if m > 0 {
      DigitRunAtLeast(s[1..], m - 1);
    }
  }

  /** `pagesInput.split(',').map(p => p.trim())`: the trimmed comma-separated tokens. */
  function Tokens(pagesInput: string): seq<string>
  {
    var parts := Split(pagesInput, ",");
    seq(|parts|, k requires 0 <= k < |parts| => Trim(parts[k]))
  }

  /**
   * There is one token more than there are commas: at least one, and two or more exactly when
   * the input holds a comma. No token holds a comma or starts or ends with white space.
   */
  lemma TokensOfInput(pagesInput: string)
    ensures |Tokens(pagesInput)| >= 1
    ensures |Tokens(pagesInput)| >= 2 <==> ',' in pagesInput
    ensures forall k :: 0 <= k < |Tokens(pagesInput)| ==>
      var t := Tokens(pagesInput)[k];
      ',' !in t && (t == [] || (!IsWhiteSpace(t[0]) && !IsWhiteSpace(t[|t| - 1])))
  {
    var parts := Split(pagesInput, ",");
    ContainsChar(pagesInput, ',');
    SplitPiecesFree(pagesInput, ",");
    forall k | 0 <= k < |parts|
      ensures ',' !in Trim(parts[k])
    {
      TrimInfix(parts[k]);
      ContainsChar(parts[k], ',');
    }
  }

  /**
   * The zero-based pages one trimmed token adds. A token with a hyphen is a range: only its
   * first two hyphen-separated pieces are read, and `a-b` adds a-1..b-1 (nothing when a > b
   * or when either piece does not parse). A token without a hyphen that parses to n adds n-1.
   */
  function TokenPages(part: string): set<int>
  {
    if Contains(part, "-") then
      var pieces := Split(part, "-");
      RangePages(ParseInt(Trim(pieces[0])), ParseInt(Trim(pieces[1])))
    else SinglePage(ParseInt(part))
  }

  /** How a token with a hyphen is read: by its first two pieces. */
  lemma RangeTokenUnfold(part: string)
    requires Contains(part, "-")
    ensures |Split(part, "-")| >= 2
    ensures TokenPages(part) ==
      RangePages(ParseInt(Trim(Split(part, "-")[0])), ParseInt(Trim(Split(part, "-")[1])))
  {
  }

  /** How a token without a hyphen is read: as one number. */
  lemma SingleTokenUnfold(part: string)
    requires !Contains(part, "-")
    ensures TokenPages(part) == SinglePage(ParseInt(part))
  {
  }

  /** The pages of a range whose ends parsed to `start` and `end`: none if either is NaN. */
  function RangePages(start: Option<int>, end: Option<int>): set<int>
  {
    if start.None? || end.None? then {} else Interval(start.value - 1, end.value - 1)
  }

  /** The page a single-page token adds: none if it is NaN. */
  function SinglePage(page: Option<int>): set<int>
  {
    if page.None? then {} else {page.value - 1}
  }

  /** The union of the pages every token adds. */
  function SelectedPages(parts: seq<string>): set<int>
  {
    UnionOver(parts, TokenPages)
  }

  /** The union of `f(x)` over the elements `x` of `xs`. */
  function UnionOver<T>(xs: seq<T>, f: T -> set<int>): set<int>
  {
    if xs == [] then {}
    else UnionOver(xs[..|xs| - 1], f) + f(xs[|xs| - 1])
  }

  predicate StrictlyAscending(s: seq<int>)
  {
    forall i, j :: 0 <= i < j < |s| ==> s[i] < s[j]
  }

  /** Every non-empty finite set of integers has a least element. */
  lemma {:induction false} MinExists(s: set<int>)
    requires s != {}
    ensures exists m :: m in s && forall x :: x in s ==> m <= x
  {
    if forall x :: x !in s {
      assert false;
    }
    var y :| y in s;
    if s != {y} {
      MinExists(s - {y});
      var m :| m in s - {y} && forall x :: x in s - {y} ==> m <= x;
      var least := if y < m then y else m;
      forall x | x in s
        ensures least <= x
      {
        if x != y {
          assert x in s - {y};
        }
      }
    } else {
      assert forall x :: x in s ==> y <= x;
    }
  }

  /**
   * `Array.from(pages).sort((a, b) => a - b)`: the elements of a set in ascending order.
   * The result has no duplicates, so it is strictly ascending.
   */
  function SortedFromSet(s: set<int>): (r: seq<int>)
    ensures StrictlyAscending(r) && |r| == |s|
    ensures forall k :: k in r <==> k in s
    decreases |s|
  {
    if s == {} then []
    else
      MinExists(s);
      var m :| m in s && forall x :: x in s ==> m <= x;
      var rest := SortedFromSet(s - {m});
      AscendingCons(m, rest);
      [m] + rest
  }

  lemma AscendingCons(m: int, rest: seq<int>)
    requires StrictlyAscending(rest) && forall k :: k in rest ==> m < k
    ensures StrictlyAscending([m] + rest)
  {
    forall i, j | 0 <= i < j < |rest| + 1
      ensures ([m] + rest)[i] < ([m] + rest)[j]
    {
      assert rest[j - 1] in rest;
    }
  }

  /** The integers from `lo` to `hi` inclusive (a JavaScript `for` loop's range). */
  function Interval(lo: int, hi: int): set<int>
    decreases hi - lo
  {
    if lo > hi then {} else Interval(lo, hi - 1) + {hi}
  }

  /** `Interval(lo, hi)` holds exactly the integers between its bounds. */
  lemma {:induction false} IntervalMember(lo: int, hi: int)
    ensures forall k :: k in Interval(lo, hi) <==> lo <= k <= hi
    decreases hi - lo
  {
    if lo <= hi {
      IntervalMember(lo, hi - 1);
    }
  }

  /**
   * What `parsePageNumbers` returns: `None` (JavaScript `null`, "all pages") for missing or
   * blank input, and otherwise the selected pages, ascending and without duplicates; a
   * non-blank selection that names no page is `Some([])`, distinct from `None`.
   */
  function PageSelection(pagesInput: Option<string>): (r: Option<seq<int>>)
    ensures r.None? <==> pagesInput.None? || Trim(pagesInput.value) == ""
    ensures r.Some? ==> StrictlyAscending(r.value)
    ensures r.Some? ==> forall k :: k in r.value <==>
      exists j :: 0 <= j < |Tokens(pagesInput.value)| && k in TokenPages(Tokens(pagesInput.value)[j])
  {
    if pagesInput.None? || Trim(pagesInput.value) == "" then None
    else
      var ts := Tokens(pagesInput.value);
      SelectedPagesMember(ts);
      Some(SortedFromSet(SelectedPages(ts)))
  }

  /** A page is selected exactly when some token adds it. */
  lemma SelectedPagesMember(parts: seq<string>)
    ensures forall k :: k in SelectedPages(parts) <==> exists j :: 0 <= j < |parts| && k in TokenPages(parts[j])
  {
    UnionOverMember(parts, TokenPages);
  }

  /** An element is in the union exactly when one of the sets contains it. */
  lemma {:induction false} UnionOverMember<T>(xs: seq<T>, f: T -> set<int>)
    ensures forall k :: k in UnionOver(xs, f) <==> exists j :: 0 <= j < |xs| && k in f(xs[j])
  {
    if xs != [] {
      var init := xs[..|xs| - 1];
      UnionOverMember(init, f);
      forall k | k in UnionOver(xs, f)
        ensures exists j :: 0 <= j < |xs| && k in f(xs[j])
      {
        if k in UnionOver(init, f) {
          var j :| 0 <= j < |init| && k in f(init[j]);
          assert xs[j] == init[j];
        } else {
          assert k in f(xs[|xs| - 1]);
        }
      }
      forall k, j | 0 <= j < |xs| && k in f(xs[j])
        ensures k in UnionOver(xs, f)
      {
        if j < |xs| - 1 {
          assert init[j] == xs[j];
        }
      }
    }
  }

  lemma IntervalSnoc(lo: int, hi: int)
    requires lo <= hi + 1
    ensures Interval(lo, hi + 1) == Interval(lo, hi) + {hi + 1}
  {
  }

  /** Walking one more token adds the pages that token names. */
  lemma SelectedPagesSnoc(parts: seq<string>, n: nat, before: set<int>, added: set<int>)
    requires n < |parts|
    requires before == SelectedPages(parts[..n]) && added == TokenPages(parts[n])
    ensures before + added == SelectedPages(parts[..n + 1])
  {
    assert parts[..n + 1][..n] == parts[..n];
  }

  /**
   * `parsePageNumbers`: adds every selected page to a set while walking the tokens, then
   * returns the set sorted ascending.
   */
  method ParsePageNumbers(pagesInput: Option<string>) returns (r: Option<seq<int>>)
    ensures r == PageSelection(pagesInput)
  {
    var pages: set<int> := {};
    if pagesInput.None? || Trim(pagesInput.value) == "" {
      return None;
    }
    var parts := Tokens(pagesInput.value);
    for n := 0 to |parts|
      invariant pages == SelectedPages(parts[..n])
    {
      ghost var before := pages;
      pages := AddTokenPages(pages, parts[n]);
      SelectedPagesSnoc(parts, n, before, TokenPages(parts[n]));
    }
    assert parts[..|parts|] == parts;
    return Some(SortedFromSet(pages));
  }

  /** One pass of the token loop of `parsePageNumbers`: adds the pages `part` names. */
  method AddTokenPages(pages: set<int>, part: string) returns (r: set<int>)
    ensures r == pages + TokenPages(part)
  {
    r := pages;
    if Contains(part, "-") {
      var pieces := Split(part, "-");
      var start, end := ParseInt(Trim(pieces[0])), ParseInt(Trim(pieces[1]));
      assert TokenPages(part) == RangePages(start, end);
      if start.None? || end.None? {
        return;
      }
      r := AddRange(pages, start.value, end.value);
    } else {
      var page := ParseInt(part);
      assert TokenPages(part) == SinglePage(page);
      if page.Some? {
        r := r + {page.value - 1};
      }
    }
  }

  /** The inner loop over a range token: adds the zero-based pages `start - 1 .. end - 1`. */
  method AddRange(pages: set<int>, start: int, end: int) returns (r: set<int>)
    ensures r == pages + Interval(start - 1, end - 1)
  {
    r := pages;
    var i := start;
    while i <= end
      invariant start <= i && (i <= end + 1 || i == start)
      invariant r == pages + Interval(start - 1, i - 2)
    {
      IntervalSnoc(start - 1, i - 2);
      r := r + {i - 1};
      i := i + 1;
    }
  }

  /** A run of digits has no hyphen and no white space at its ends. */
  lemma DigitsPlain(d: string)
    requires AllDigits(d)
    ensures !Contains(d, "-")
    ensures d == [] || (!IsWhiteSpace(d[0]) && !IsWhiteSpace(d[|d| - 1]))
  {
    forall k | 0 <= k < |d|
      ensures d[k] != '-'
    {
      assert IsDigit(d[k]);
    }
    ContainsChar(d, '-');
    if d != [] {
      assert IsDigit(d[0]) && IsDigit(d[|d| - 1]);
    }
  }

  /** Splitting digits, a hyphen and more text on "-" cuts right after the digits. */
  lemma SplitAfterDigits(d: string, tail: string)
    requires AllDigits(d)
    ensures Contains(d + "-" + tail, "-")
    ensures Split(d + "-" + tail, "-") == [d] + Split(tail, "-")
  {
    var s := d + "-" + tail;
    assert OccursAt(s, "-", |d|) by {
      assert s[|d|..|d| + 1] == "-";
    }
    forall p | 0 <= p < |d|
      ensures !OccursAt(s, "-", p)
    {
      assert s[p..p + 1][0] == d[p] && IsDigit(d[p]);
    }
    SplitAt(s, "-", |d|);
    assert s[..|d|] == d && s[|d| + 1..] == tail;
    ContainsIff(s, "-");
  }

  /** A plain number parses back to itself, also after trimming. */
  lemma ParseDecimal(n: nat)
    ensures Trim(Decimal(n)) == Decimal(n)
    ensures ParseInt(Decimal(n)) == Some(n)
  {
    DigitsPlain(Decimal(n));
    TrimNoop(Decimal(n));
    ParseIntOfDecimal(n, "");
    assert Decimal(n) + "" == Decimal(n);
  }

  /** A token that is a plain number `n` adds page `n - 1`; the token "0" adds -1. */
  lemma NumberToken(n: nat)
    ensures TokenPages(Decimal(n)) == {n - 1}
  {
    DigitsPlain(Decimal(n));
    ParseDecimal(n);
  }

  /**
   * A token without a hyphen whose first character is neither white space, a sign nor a digit
   * adds nothing, and parsing goes on with the next token.
   */
  lemma JunkToken(part: string)
    requires '-' !in part
    requires part != [] && !IsWhiteSpace(part[0]) && !IsDigit(part[0]) && part[0] != '+'
    ensures TokenPages(part) == {}
  {
    ContainsChar(part, '-');
    assert TrimStart(part) == part;
  }

  /** The first "-"-separated piece of digits followed by nothing or by a hyphen is the digits. */
  lemma FirstPieceDigits(d: string, rest: string)
    requires AllDigits(d)
    requires rest == [] || rest[0] == '-'
    ensures Split(d + rest, "-")[0] == d
  {
    if rest == [] {
      assert d + rest == d;
      DigitsPlain(d);
      SplitNone(d, "-");
    } else {
      assert d + rest == d + "-" + rest[1..];
      SplitAfterDigits(d, rest[1..]);
    }
  }

  /** The two pieces `parsePageNumbers` reads from the token `a-b` or `a-b-...`. */
  lemma RangePieces(a: nat, b: nat, rest: string)
    requires rest == [] || rest[0] == '-'
    ensures Contains(Decimal(a) + "-" + Decimal(b) + rest, "-")
    ensures |Split(Decimal(a) + "-" + Decimal(b) + rest, "-")| >= 2
    ensures Split(Decimal(a) + "-" + Decimal(b) + rest, "-")[0] == Decimal(a)
    ensures Split(Decimal(a) + "-" + Decimal(b) + rest, "-")[1] == Decimal(b)
  {
    var da, db := Decimal(a), Decimal(b);
    assert da + "-" + db + rest == da + "-" + (db + rest);
    SplitAfterDigits(da, db + rest);
    FirstPieceDigits(db, rest);
  }

  /** A range token whose two pieces are the numbers `a` and `b` adds pages a-1 .. b-1. */
  lemma RangeOfNumbers(part: string, a: nat, b: nat)
    requires Contains(part, "-") && |Split(part, "-")| >= 2
    requires Split(part, "-")[0] == Decimal(a) && Split(part, "-")[1] == Decimal(b)
    ensures TokenPages(part) == Interval(a - 1, b - 1)
  {
    ParseDecimal(a);
    ParseDecimal(b);
    RangeTokenUnfold(part);
  }

  /**
   * A range token `a-b` adds exactly pages a-1 .. b-1, which is nothing when a > b. Only the
   * first two hyphen-separated pieces count, so `a-b-c` adds what `a-b` adds.
   */
  lemma RangeTokenPages(a: nat, b: nat, rest: string)
    requires rest == [] || rest[0] == '-'
    ensures forall k :: k in TokenPages(Decimal(a) + "-" + Decimal(b) + rest) <==> a - 1 <= k <= b - 1
  {
    RangePieces(a, b, rest);
    RangeOfNumbers(Decimal(a) + "-" + Decimal(b) + rest, a, b);
    IntervalMember(a - 1, b - 1);
  }

  /** A range with an empty end, such as `-5` or `5-`, adds nothing. */
  lemma HalfOpenRangeToken(n: nat)
    ensures TokenPages("-" + Decimal(n)) == {}
    ensures TokenPages(Decimal(n) + "-") == {}
  {
    var d := Decimal(n);
    var s1, s2 := "-" + d, d + "-";
    assert OccursAt(s1, "-", 0) by {
      assert s1[0..1] == "-";
    }
    SplitAt(s1, "-", 0);
    ContainsIff(s1, "-");
    assert s1[..0] == "";
    assert TrimStart("") == "";
    assert OccursAt(s2, "-", |d|) by {
      assert s2[|d|..|d| + 1] == "-";
    }
    forall p | 0 <= p < |d|
      ensures !OccursAt(s2, "-", p)
    {
      assert s2[p..p + 1][0] == d[p] && IsDigit(d[p]);
    }
    SplitAt(s2, "-", |d|);
    ContainsIff(s2, "-");
    assert s2[|d| + 1..] == "";
    IndexOfNone("", "-");
    SplitNone("", "-");
  }

  /** Text without a hyphen, trimmed or not, never parses to a negative number. */
  lemma PieceNotNegative(piece: string)
    requires !Contains(piece, "-")
    ensures ParseInt(piece).None? || ParseInt(piece).value >= 0
    ensures ParseInt(Trim(piece)).None? || ParseInt(Trim(piece)).value >= 0
  {
    ContainsChar(piece, '-');
    TrimInfix(piece);
    ParseIntSign(piece);
    ParseIntSign(Trim(piece));
  }

  /** Every page a token adds is at least -1: no text reaching `parseInt` carries a '-'. */
  lemma TokenPagesAtLeastMinusOne(part: string)
    ensures forall k :: k in TokenPages(part) ==> k >= -1
  {
    if Contains(part, "-") {
      RangeTokenUnfold(part);
      var pieces := Split(part, "-");
      SplitPiecesFree(part, "-");
      PieceNotNegative(pieces[0]);
      var start, end := ParseInt(Trim(pieces[0])), ParseInt(Trim(pieces[1]));
      if start.Some? && end.Some? {
        IntervalMember(start.value - 1, end.value - 1);
      }
    } else {
      SingleTokenUnfold(part);
      PieceNotNegative(part);
    }
  }

  /** Every index `parsePageNumbers` returns is at least -1. */
  lemma SelectionAtLeastMinusOne(pagesInput: Option<string>)
    ensures PageSelection(pagesInput).Some? ==> forall k :: k in PageSelection(pagesInput).value ==> k >= -1
  {
    if PageSelection(pagesInput).Some? {
      var ts := Tokens(pagesInput.value);
      forall k | k in PageSelection(pagesInput).value
        ensures k >= -1
      {
        var j :| 0 <= j < |ts| && k in TokenPages(ts[j]);
        TokenPagesAtLeastMinusOne(ts[j]);
      }
    }
  }

  /** Which pages are selected depends only on which tokens occur, not on their order or repetition. */
  lemma SelectedPagesOrderFree(a: seq<string>, b: seq<string>)
    requires forall t :: t in a <==> t in b
    ensures SelectedPages(a) == SelectedPages(b)
  {
    SelectedPagesMember(a);
    SelectedPagesMember(b);
    forall k | k in SelectedPages(a)
      ensures k in SelectedPages(b)
    {
      var j :| 0 <= j < |a| && k in TokenPages(a[j]);
      assert a[j] in b;
      var i :| 0 <= i < |b| && b[i] == a[j];
    }
    forall k | k in SelectedPages(b)
      ensures k in SelectedPages(a)
    {
      var j :| 0 <= j < |b| && k in TokenPages(b[j]);
      assert b[j] in a;
      var i :| 0 <= i < |a| && a[i] == b[j];
    }
  }

  /** The pages at the requested indices that exist in `src`, in request order, duplicates kept. */
  function PagesAt<P>(src: seq<P>, indices: seq<int>): seq<P>
  {
    if indices == [] then []
    else
      var i := indices[|indices| - 1];
      PagesAt(src, indices[..|indices| - 1]) + (if 0 <= i < |src| then [src[i]] else [])
  }

  /** The indices of a request that name a page of an `n`-page document, in order, duplicates kept. */
  function InRange(indices: seq<int>, n: nat): (r: seq<int>)
    ensures |r| <= |indices|
    ensures forall k :: 0 <= k < |r| ==> 0 <= r[k] < n
    ensures forall i :: i in r <==> i in indices && 0 <= i < n
  {
    if indices == [] then []
    else
      var i := indices[|indices| - 1];
      var init := indices[..|indices| - 1];
      assert indices == init + [i];
      InRange(init, n) + (if 0 <= i < n then [i] else [])
  }

  /**
   * The copied pages are exactly the source pages at the in-range indices, in request order:
   * duplicates are kept and out-of-range indices are dropped.
   */
  lemma {:induction false} PagesAtInRange<P>(src: seq<P>, indices: seq<int>)
    ensures |PagesAt(src, indices)| == |InRange(indices, |src|)|
    ensures forall k :: 0 <= k < |PagesAt(src, indices)| ==>
      PagesAt(src, indices)[k] == src[InRange(indices, |src|)[k]]
  {
    if indices != [] {
      PagesAtInRange(src, indices[..|indices| - 1]);
    }
  }

  /** A request whose indices are all out of range copies no page. */
  lemma NoneInRange<P>(src: seq<P>, indices: seq<int>)
    requires forall k :: 0 <= k < |indices| ==> indices[k] < 0 || indices[k] >= |src|
    ensures PagesAt(src, indices) == []
  {
    PagesAtInRange(src, indices);
  }

  /** Requesting `a` and then `b` copies the pages `a` copies and then those `b` copies. */
  lemma {:induction false} PagesAtAppend<P>(src: seq<P>, a: seq<int>, b: seq<int>)
    ensures PagesAt(src, a + b) == PagesAt(src, a) + PagesAt(src, b)
    decreases |b|
  {
    if b == [] {
      assert a + b == a;
    } else {
      assert (a + b)[..|a + b| - 1] == a + b[..|b| - 1];
      PagesAtAppend(src, a, b[..|b| - 1]);
    }
  }

  /** With `null` indices every page is copied, in order: the copy is the whole document. */
  lemma AllPagesCopied<P>(src: seq<P>)
    ensures PagesAt(src, Requested(None, |src|)) == src
  {
    var all := AllIndices(|src|);
    assert InRange(all, |src|) == all by {
      AllInRange(all, |src|);
    }
    PagesAtInRange(src, all);
  }

  /** Filtering a request that is all in range leaves it as it is. */
  lemma {:induction false} AllInRange(indices: seq<int>, n: nat)
    requires forall k :: 0 <= k < |indices| ==> 0 <= indices[k] < n
    ensures InRange(indices, n) == indices
  {
    if indices != [] {
      AllInRange(indices[..|indices| - 1], n);
    }
  }

  /** `Array.from({ length: n }, (_, i) => i)`. */
  function AllIndices(n: nat): (r: seq<int>)
    ensures |r| == n && forall k :: 0 <= k < n ==> r[k] == k
  {
    seq(n, k => k)
  }

  /** The indices `extractPdfPages` walks: the given list, or every page when it is `null`. */
  function Requested(pageIndices: Option<seq<int>>, totalPages: nat): seq<int>
  {
    if pageIndices.Some? then pageIndices.value else AllIndices(totalPages)
  }

  /** `PDFDocument.load` rejected the bytes. */
  datatype PdfError = InvalidPdf

  /**
   * `extractPdfPages`: loads the source, appends a copy of each requested page that exists
   * to a new document, and saves it. A source that does not load is an error.
   */
  method ExtractPdfPages<P>(pdfBuffer: seq<Byte>, pageIndices: Option<seq<int>>,
                            load: seq<Byte> -> Option<seq<P>>, save: seq<P> -> seq<Byte>)
    returns (r: Result<seq<Byte>, PdfError>)
    ensures load(pdfBuffer).None? ==> r == Failure(InvalidPdf)
    ensures load(pdfBuffer).Some? ==>
      var src := load(pdfBuffer).value;
      r == Success(save(PagesAt(src, Requested(pageIndices, |src|))))
  {
    var srcDoc := load(pdfBuffer);
    if srcDoc.None? {
      return Failure(InvalidPdf);
    }
    var src := srcDoc.value;
    var newDoc: seq<P> := [];
    var totalPages := |src|;
    var indices := if pageIndices.Some? then pageIndices.value else AllIndices(totalPages);
    for n := 0 to |indices|
      invariant newDoc == PagesAt(src, indices[..n])
    {
      assert indices[..n + 1][..n] == indices[..n];
      var index := indices[n];
      if index >= 0 && index < totalPages {
        newDoc := newDoc + [src[index]];
      }
    }
    assert indices[..|indices|] == indices;
    return Success(save(newDoc));
  }
}
