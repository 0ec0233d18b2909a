/**
 * `paginator_func`: the page of an ordered listing that a request's `page`
 * query parameter selects, `Paginator(list, PAGE_NUMBER_CONST).get_page(page)`.
 * Django's Paginator is written out here as its `get_page` contract states it:
 * the parameter is read with Python's `int()`, a missing or non-integer value
 * gives page 1, and a number outside 1..num_pages gives the last page.
 */
module Pagination {
  import opened Tables

  /** `settings.PAGE_NUMBER_CONST`: items per page. */
  const PAGE_SIZE: nat := 10

  /** `request.GET.get("page")`: absent (None) or the raw query-string value. */
  datatype PageParam = Absent | Given(raw: string)

  /** A Django `Page`: its items, its number, and the paginator's page count and item count. */
  datatype Page<T> = Page(objectList: seq<T>, number: nat, numPages: nat, count: nat) {
    predicate HasNext() { number < numPages }
    predicate HasPrevious() { number > 1 }
  }

  // ---------------------------------------------------------------------------
  // Python's int() on a string.
  // ---------------------------------------------------------------------------

  /**
   * The characters `int()` skips at both ends: the ASCII space and `\t` to `\r`,
   * and the non-ASCII characters `str.isspace()` accepts, which `int()` first
   * turns into spaces. The ASCII separators U+001C to U+001F, which
   * `str.isspace()` also accepts, stay as they are and make `int()` fail.
   */
  predicate IsPyWhitespace(c: char) {
    || c == ' ' || '\t' <= c <= '\r'
    || c == '\U{85}' || c == '\U{a0}' || c == '\U{1680}' || '\U{2000}' <= c <= '\U{200a}'
    || c == '\U{2028}' || c == '\U{2029}' || c == '\U{202f}' || c == '\U{205f}' || c == '\U{3000}'
  }

  function StripLeading(s: string): (t: string)
    ensures |t| <= |s| && t == s[|s| - |t|..]
    ensures t != [] ==> !IsPyWhitespace(t[0])
    ensures forall i :: 0 <= i < |s| - |t| ==> IsPyWhitespace(s[i])
  {
    if s != [] && IsPyWhitespace(s[0]) then StripLeading(s[1..]) else s
  }

  function StripTrailing(s: string): (t: string)
    ensures |t| <= |s| && t == s[..|t|]
    ensures t != [] ==> !IsPyWhitespace(t[|t| - 1])
    ensures forall i :: |t| <= i < |s| ==> IsPyWhitespace(s[i])
  {
    if s != [] && IsPyWhitespace(s[|s| - 1]) then StripTrailing(s[..|s| - 1]) else s
  }

  /** `s` without the whitespace `int()` skips at either end. */
  function Strip(s: string): string { StripTrailing(StripLeading(s)) }

  predicate IsDigit(c: char) { '0' <= c <= '9' }

  predicate AllDigits(s: string) { forall i :: 0 <= i < |s| ==> IsDigit(s[i]) }

  /** Decimal digits, where a single underscore may stand between two digits. */
  predicate IsDigitString(t: string) {
    && |t| > 0 && IsDigit(t[0]) && IsDigit(t[|t| - 1])
    && (forall i :: 0 <= i < |t| ==> IsDigit(t[i]) || t[i] == '_')
    && (forall i :: 0 <= i < |t| - 1 && t[i] == '_' ==> IsDigit(t[i + 1]))
  }

  function DigitValue(c: char): nat
    requires IsDigit(c)
  {
    c as int - '0' as int
  }

  /** The number a string of decimal digits denotes; leading zeros are allowed. */
  function DecimalValue(ds: string): nat
    requires AllDigits(ds)
  {
    if ds == [] then 0 else 10 * DecimalValue(ds[..|ds| - 1]) + DigitValue(ds[|ds| - 1])
  }

  function ParseDigits(t: string): (r: Option<nat>)
    ensures r.Some? <==> IsDigitString(t)
  {
    if IsDigitString(t) then
      var ds := Filter(t, IsDigit);
      assert AllDigits(ds) by { forall i | 0 <= i < |ds| ensures IsDigit(ds[i]) { assert ds[i] in ds; } }
      Some(DecimalValue(ds))
    else None
  }

  /** Digits, or a sign and digits: after the first character only digits and underscores. */
  lemma SignedDigitsShape(t: string)
    ensures ParseDigits(t).Some? ==> forall i :: 0 < i < |t| ==> IsDigit(t[i]) || t[i] == '_'
    ensures |t| > 0 && ParseDigits(t[1..]).Some? ==> forall i :: 0 < i < |t| ==> IsDigit(t[i]) || t[i] == '_'
  {
    if |t| > 0 && ParseDigits(t[1..]).Some? {
      forall i | 0 < i < |t| ensures IsDigit(t[i]) || t[i] == '_' {
        assert t[1..][i - 1] == t[i];
      }
    }
  }

  /** `int(s)` for a string `s`: None where Python raises ValueError. */
  function ParsePyInt(s: string): (r: Option<int>)
    ensures r.Some? ==> |Strip(s)| > 0
    ensures r.Some? ==> IsDigit(Strip(s)[0]) || Strip(s)[0] == '+' || Strip(s)[0] == '-'
    ensures r.Some? ==> forall i :: 0 < i < |Strip(s)| ==> IsDigit(Strip(s)[i]) || Strip(s)[i] == '_'
    ensures r.Some? && r.value < 0 ==> Strip(s)[0] == '-'
  {
    var t := Strip(s);
    SignedDigitsShape(t);
    if |t| > 0 && (t[0] == '+' || t[0] == '-') then
      match ParseDigits(t[1..])
      case None => None
      case Some(v) => Some(if t[0] == '-' then -(v as int) else v)
    else
      match ParseDigits(t)
      case None => None
      case Some(v) => Some(v)
  }

  function DigitChar(d: nat): (c: char)
    requires d < 10
    ensures IsDigit(c) && DigitValue(c) == d
  {
    ('0' as int + d) as char
  }

  /** `str(n)` for a natural number. */
  function DecimalString(n: nat): (s: string)
    ensures s != [] && AllDigits(s)
  {
    if n < 10 then [DigitChar(n)] else DecimalString(n / 10) + [DigitChar(n % 10)]
  }

  lemma {:induction false} DecimalValueOfString(n: nat)
    ensures DecimalValue(DecimalString(n)) == n
  {
    if n >= 10 {
      var s := DecimalString(n);
      assert s[..|s| - 1] == DecimalString(n / 10);
      DecimalValueOfString(n / 10);
    }
  }

  lemma FilterAllDigits(s: string)
    requires AllDigits(s)
    ensures Filter(s, IsDigit) == s
  {
    if s != [] {
      assert AllDigits(s[1..]) by { forall i | 0 <= i < |s| - 1 ensures IsDigit(s[1..][i]) { assert s[1..][i] == s[i + 1]; } }
      FilterAllDigits(s[1..]);
    }
  }

  /** A string with no whitespace at either end is its own `strip()`. */
  lemma StripUnpadded(s: string)
    requires s != [] && !IsPyWhitespace(s[0]) && !IsPyWhitespace(s[|s| - 1])
    ensures Strip(s) == s
  {
    assert StripLeading(s) == s;
  }

  lemma ReadsDigits(d: string)
    requires d != [] && AllDigits(d)
    ensures ParseDigits(d) == Some(DecimalValue(d))
  {
    assert IsDigitString(d);
    FilterAllDigits(d);
  }

  /** Text that strips to decimal digits reads as their value. */
  lemma ParseUnsigned(s: string, d: string)
    requires d != [] && AllDigits(d) && Strip(s) == d
    ensures ParsePyInt(s) == Some(DecimalValue(d))
  {
    assert IsDigit(d[0]);
    ReadsDigits(d);
  }

  /** Text that strips to a minus sign and the digits of `n` reads as -n. */
  lemma ParseMinus(s: string, d: string, n: nat)
    requires d != [] && AllDigits(d) && DecimalValue(d) == n && Strip(s) == "-" + d
    ensures ParsePyInt(s) == Some(-(n as int))
  {
    ReadsDigits(d);
    ParseMinusDigits(s, d, n);
  }

  /** PEP 515: an underscore between digits is dropped. */
  lemma UnderscoreDigits()
    ensures ParseDigits("1_0") == Some(10)
  {
    assert IsDigitString("1_0");
    assert Filter("1_0", IsDigit) == "10" by {
      assert "1_0"[1..] == "_0" && "_0"[1..] == "0" && "0"[1..] == [];
    }
    assert DecimalValue("10") == 10 by { assert "10"[..1] == "1"; assert "1"[..0] == []; }
  }

  /** Text that strips to a digit string, underscores allowed, reads as its value. */
  lemma ParseBareDigits(s: string, t: string, n: nat)
    requires ParseDigits(t) == Some(n) && Strip(s) == t
    ensures ParsePyInt(s) == Some(n)
  {
    assert IsDigit(t[0]);
  }

  /** Text that strips to a plus sign and a digit string, underscores allowed, reads as its value. */
  lemma ParsePlusDigits(s: string, t: string, n: nat)
    requires ParseDigits(t) == Some(n) && Strip(s) == "+" + t
    ensures ParsePyInt(s) == Some(n)
  {
    assert ("+" + t)[1..] == t;
  }

  /** `int("1_0") == 10`. */
  lemma UnderscoreBetweenDigits()
    ensures ParsePyInt("1_0") == Some(10)
  {
    UnderscoreDigits();
    StripUnpadded("1_0");
    ParseBareDigits("1_0", "1_0", 10);
  }

  /** Text that strips to a minus sign and a digit string, underscores allowed, reads as minus its value. */
  lemma ParseMinusDigits(s: string, t: string, n: nat)
    requires ParseDigits(t) == Some(n) && Strip(s) == "-" + t
    ensures ParsePyInt(s) == Some(-(n as int))
  {
    assert ("-" + t)[1..] == t;
  }

  /** "-1_0" has no whitespace to strip. */
  lemma MinusTextIsUnpadded(s: string)
    requires s == "-1_0"
    ensures Strip(s) == "-" + "1_0"
  {
    StripUnpadded(s);
  }

  /** `int("-1_0") == -10`. */
  lemma MinusWithUnderscore()
    ensures ParsePyInt("-1_0") == Some(-10)
  {
    UnderscoreDigits();
    MinusTextIsUnpadded("-1_0");
    ParseMinusDigits("-1_0", "1_0", 10);
  }

  /** "+1_0" has no whitespace to strip. */
  lemma PlusTextIsUnpadded(s: string)
    requires s == "+1_0"
    ensures Strip(s) == "+" + "1_0"
  {
    StripUnpadded(s);
  }

  /** `int("+1_0") == 10`. */
  lemma PlusWithUnderscore()
    ensures ParsePyInt("+1_0") == Some(10)
  {
    UnderscoreDigits();
    PlusTextIsUnpadded("+1_0");
    ParsePlusDigits("+1_0", "1_0", 10);
  }

  /** `int(str(n)) == n`: the decimal form of a page number reads back as that number. */
  lemma ParseDecimalString(n: nat)
    ensures ParsePyInt(DecimalString(n)) == Some(n)
  {
    var d := DecimalString(n);
    assert IsDigit(d[0]) && IsDigit(d[|d| - 1]);
    StripUnpadded(d);
    ParseUnsigned(d, d);
    DecimalValueOfString(n);
  }

  /** `int("-" + str(n)) == -n`. */
  lemma ParseNegativeDecimalString(n: nat)
    ensures ParsePyInt("-" + DecimalString(n)) == Some(-(n as int))
  {
    var d := DecimalString(n);
    var s := "-" + d;
    DecimalValueOfString(n);
    assert IsDigit(d[|d| - 1]) && s[|s| - 1] == d[|d| - 1];
    StripUnpadded(s);
    ParseMinus(s, d, n);
  }

  lemma StripLeadingSpace(d: string)
    requires d != [] && !IsPyWhitespace(d[0])
    ensures StripLeading(" " + d + " ") == d + " "
  {
    assert (" " + d + " ")[1..] == d + " ";
  }

  lemma StripTrailingSpace(d: string)
    requires d != [] && !IsPyWhitespace(d[|d| - 1])
    ensures StripTrailing(d + " ") == d
  {
    assert (d + " ")[..|d|] == d;
  }

  /** `int()` ignores whitespace around the number. */
  lemma ParseIgnoresSurroundingSpace(n: nat)
    ensures ParsePyInt(" " + DecimalString(n) + " ") == Some(n)
  {
    var d := DecimalString(n);
    assert IsDigit(d[0]) && IsDigit(d[|d| - 1]);
    StripLeadingSpace(d);
    StripTrailingSpace(d);
    ParseUnsigned(" " + d + " ", d);
    DecimalValueOfString(n);
  }

  /** Text that is not an integer (`int()` raises ValueError): the empty string. */
  lemma EmptyIsNotAnInteger()
    ensures ParsePyInt("") == None
  {
  }

  /** A word is not an integer. */
  lemma WordIsNotAnInteger()
    ensures ParsePyInt("abc") == None
  {
    assert StripLeading("abc") == "abc";
    assert StripTrailing("abc") == "abc";
    assert !IsDigitString("abc") by { assert !IsDigit("abc"[0]); }
  }

  /** A decimal fraction is not an integer, even a whole one. */
  lemma FractionIsNotAnInteger()
    ensures ParsePyInt("2.0") == None
  {
    assert StripLeading("2.0") == "2.0";
    assert StripTrailing("2.0") == "2.0";
    assert !IsDigitString("2.0") by { assert "2.0"[1] == '.'; }
  }

  /** Two underscores in a row are not allowed between digits. */
  lemma DoubleUnderscoreIsNotAnInteger()
    ensures ParsePyInt("1__0") == None
  {
    DoubleUnderscoreIsUnpadded("1__0");
    assert !IsDigitString("1__0") by { assert "1__0"[1] == '_' && "1__0"[2] == '_'; }
  }

  /** "1__0" has no whitespace to strip. */
  lemma DoubleUnderscoreIsUnpadded(s: string)
    requires s == "1__0"
    ensures Strip(s) == s
  {
    StripUnpadded(s);
  }

  // ---------------------------------------------------------------------------
  // Django's Paginator with orphans = 0 and allow_empty_first_page = True.
  // ---------------------------------------------------------------------------

  /** `Paginator.num_pages`: `ceil(max(1, count) / PAGE_SIZE)`. */
  function NumPages(count: nat): (n: nat)
    ensures n >= 1
    ensures count == 0 ==> n == 1
    ensures count > 0 ==> (n - 1) * PAGE_SIZE < count <= n * PAGE_SIZE
  {
    if count == 0 then 1 else (count + PAGE_SIZE - 1) / PAGE_SIZE
  }

  /** The outcomes of `Paginator.validate_number`. */
  datatype Checked = Number(k: int) | NotAnInteger | EmptyPage

  /**
   * `Paginator.validate_number`: `int(None)` raises TypeError and a non-numeric
   * string ValueError (both PageNotAnInteger); a number below 1 or above
   * num_pages raises EmptyPage. (The exemption of page 1 on an empty list
   * never applies, since num_pages is at least 1.)
   */
  function ValidateNumber(param: PageParam, numPages: nat): (r: Checked)
    ensures r.NotAnInteger? <==> param.Absent? || ParsePyInt(param.raw).None?
    ensures r.Number? ==> param.Given? && ParsePyInt(param.raw) == Some(r.k) && 1 <= r.k <= numPages
    ensures r.EmptyPage? ==> param.Given? && ParsePyInt(param.raw).Some? && (ParsePyInt(param.raw).value < 1 || ParsePyInt(param.raw).value > numPages)
  {
    match param
    case Absent => NotAnInteger
    case Given(raw) =>
      match ParsePyInt(raw)
      case None => NotAnInteger
      case Some(k) => if k < 1 || k > numPages then EmptyPage else Number(k)
  }

  /** The page number `get_page` serves: page 1 for PageNotAnInteger, the last page for EmptyPage. */
  function PageNumber(param: PageParam, count: nat): (k: nat)
    ensures 1 <= k <= NumPages(count)
  {
    match ValidateNumber(param, NumPages(count))
    case Number(k) => k
    case NotAnInteger => 1
    case EmptyPage => NumPages(count)
  }

  /** `Paginator.page(k).object_list`: `items[bottom:top]`, cut at the end of the list. */
  function PageSlice<T>(items: seq<T>, k: nat): (r: seq<T>)
    requires 1 <= k <= NumPages(|items|)
    ensures r == items[(k - 1) * PAGE_SIZE .. Min(k * PAGE_SIZE, |items|)]
    ensures |r| <= PAGE_SIZE
    ensures items != [] ==> r != []
  {
    var bottom := (k - 1) * PAGE_SIZE;
    var top := bottom + PAGE_SIZE;
    PageStartInRange(|items|, k);
    assert top == k * PAGE_SIZE;
    assert items != [] ==> bottom < |items| by {
      if items != [] { assert (k - 1) * PAGE_SIZE <= (NumPages(|items|) - 1) * PAGE_SIZE; }
    }
    items[bottom .. if top >= |items| then |items| else top]
  }

  /** `paginator_func(items, request)` for the request's `page` parameter. */
  function GetPage<T>(items: seq<T>, param: PageParam): (p: Page<T>)
    ensures p.count == |items| && p.numPages == NumPages(|items|)
    ensures 1 <= p.number <= p.numPages
    ensures |p.objectList| <= PAGE_SIZE
    ensures p.objectList == items[(p.number - 1) * PAGE_SIZE .. Min(p.number * PAGE_SIZE, |items|)]
    ensures items != [] ==> p.objectList != []
  {
    var k := PageNumber(param, |items|);
    Page(PageSlice(items, k), k, NumPages(|items|), |items|)
  }

  /** A missing or non-integer page number gives page 1. */
  lemma NonIntegerGivesFirstPage<T>(items: seq<T>, param: PageParam)
    requires param.Absent? || ParsePyInt(param.raw).None?
    ensures GetPage(items, param).number == 1
    ensures GetPage(items, param).objectList == items[..Min(PAGE_SIZE, |items|)]
  {
  }

  /** A number within 1..num_pages gives that page. */
  lemma InRangeGivesThatPage<T>(items: seq<T>, raw: string, k: int)
    requires ParsePyInt(raw) == Some(k) && 1 <= k <= NumPages(|items|)
    ensures GetPage(items, Given(raw)).number == k
  {
  }

  /** A number past the end, or below 1, gives the last page. */
  lemma OutOfRangeGivesLastPage<T>(items: seq<T>, raw: string, k: int)
    requires ParsePyInt(raw) == Some(k) && (k < 1 || k > NumPages(|items|))
    ensures GetPage(items, Given(raw)).number == NumPages(|items|)
  {
  }

  /** An empty listing is one empty page with no neighbours. */
  lemma EmptyListing<T>(items: seq<T>, param: PageParam)
    requires items == []
    ensures var p := GetPage(items, param);
      p.objectList == [] && p.number == 1 && p.numPages == 1 && !p.HasNext() && !p.HasPrevious()
  {
  }

  /** Every page but the last is full; the last holds the rest, `count % PAGE_SIZE` when that is not 0. */
  lemma PageSizes<T>(items: seq<T>, k: nat)
    requires 1 <= k <= NumPages(|items|)
    ensures k < NumPages(|items|) ==> |PageSlice(items, k)| == PAGE_SIZE
    ensures k == NumPages(|items|) ==> |PageSlice(items, k)| == |items| - (k - 1) * PAGE_SIZE
    ensures k == NumPages(|items|) && |items| % PAGE_SIZE != 0 ==> |PageSlice(items, k)| == |items| % PAGE_SIZE
  {
  }

  /** Page k starts inside the listing, and the page after the last starts at or past its end. */
  lemma PageStartInRange(count: nat, k: nat)
    requires 1 <= k <= NumPages(count)
    ensures (k - 1) * PAGE_SIZE <= count
    ensures k == NumPages(count) ==> k * PAGE_SIZE >= count
  {
    var n := NumPages(count);
    assert (k - 1) * PAGE_SIZE <= (n - 1) * PAGE_SIZE;
  }

  /** Pages k, k+1, ..., num_pages laid end to end. */
  function PagesFrom<T>(items: seq<T>, k: nat): seq<T>
    requires 1 <= k <= NumPages(|items|) + 1
    decreases NumPages(|items|) + 1 - k
  {
    if k > NumPages(|items|) then [] else PageSlice(items, k) + PagesFrom(items, k + 1)
  }

  lemma {:induction false} PagesFromIsSuffix<T>(items: seq<T>, k: nat)
    requires 1 <= k <= NumPages(|items|) + 1
    ensures PagesFrom(items, k) == items[Min((k - 1) * PAGE_SIZE, |items|)..]
    decreases NumPages(|items|) + 1 - k
  {
    if k <= NumPages(|items|) {
      PagesFromIsSuffix(items, k + 1);
      var lo := (k - 1) * PAGE_SIZE;
      var hi := Min(k * PAGE_SIZE, |items|);
      assert (k + 1 - 1) * PAGE_SIZE == k * PAGE_SIZE == lo + PAGE_SIZE;
      assert lo <= |items| by { PageStartInRange(|items|, k); }
      assert PagesFrom(items, k) == PageSlice(items, k) + PagesFrom(items, k + 1);
      assert PageSlice(items, k) == items[lo..hi];
      assert PagesFrom(items, k + 1) == items[hi..];
      assert items[lo..hi] + items[hi..] == items[lo..];
    } else {
      assert (k - 1) * PAGE_SIZE >= |items| by { PageStartInRange(|items|, k - 1); }
    }
  }

  /** The pages are contiguous, in order, and together give back the whole listing. */
  lemma AllPagesGiveTheListing<T>(items: seq<T>)
    ensures PagesFrom(items, 1) == items
  {
    PagesFromIsSuffix(items, 1);
  }

  /** Twelve items: page 1 has 10. */
  lemma TwelveItemsFirstPage<T>(items: seq<T>)
    requires |items| == 12
    ensures |GetPage(items, Absent).objectList| == PAGE_SIZE
  {
    assert NumPages(12) == 2;
    assert PageNumber(Absent, 12) == 1;
  }

  /** `int("\x1c2")` raises ValueError: the file separator is not skipped, so `?page=%1C2` serves page 1. */
  lemma FileSeparatorIsNotSkipped<T>(items: seq<T>)
    ensures ParsePyInt("\U{1c}2") == None
    ensures GetPage(items, Given("\U{1c}2")).number == 1
  {
    assert !IsPyWhitespace('\U{1c}');
    assert StripLeading("\U{1c}2") == "\U{1c}2";
    assert StripTrailing("\U{1c}2") == "\U{1c}2";
    assert !IsDigitString("\U{1c}2");
  }

  /** A one-digit page number, as the paginator's links write it. */
  lemma ParseSingleDigit(n: nat)
    requires n < 10
    ensures ParsePyInt([DigitChar(n)]) == Some(n as int)
  {
    ParseDecimalString(n);
  }

  /** Twelve items: page 2 has 12 % 10 = 2. */
  lemma TwelveItemsSecondPage<T>(items: seq<T>)
    requires |items| == 12
    ensures |GetPage(items, Given("2")).objectList| == |items| % PAGE_SIZE == 2
  {
    assert NumPages(12) == 2;
    ParseSingleDigit(2);
    assert [DigitChar(2)] == "2";
    InRangeGivesThatPage(items, "2", 2);
    PageSizes(items, 2);
  }

  /** Twelve items: asking for page 3 serves page 2 again. */
  lemma TwelveItemsThirdPage<T>(items: seq<T>)
    requires |items| == 12
    ensures GetPage(items, Given("3")).objectList == GetPage(items, Given("2")).objectList
  {
    assert NumPages(12) == 2;
    ParseSingleDigit(2);
    assert [DigitChar(2)] == "2";
    ParseSingleDigit(3);
    assert [DigitChar(3)] == "3";
    InRangeGivesThatPage(items, "2", 2);
    OutOfRangeGivesLastPage(items, "3", 3);
  }
}
