/**
 * The admin dashboard's list logic: the filter pipeline over all posts, the
 * year choices of its filter menu, and the published, draft and media
 * counters.
 */
module AdminDashboard {
  import opened Wrappers
  import opened Text
  import opened Seqs
  import opened Posts

  // ---------------------------------------------------------------------
  // `parseInt` and `String` on years

  /** The value of a digit character in bases up to 16. */
  function DigitValue(c: char): (v: Option<nat>)
    ensures v.Some? ==> v.value < 16
    ensures IsDigit(c) ==> v == Some(c as int - '0' as int)
  {
    if '0' <= c <= '9' then Some(c as int - '0' as int)
    else if 'a' <= c <= 'f' then Some(c as int - 'a' as int + 10)
    else if 'A' <= c <= 'F' then Some(c as int - 'A' as int + 10)
    else None
  }

  predicate IsRadixDigit(c: char, radix: nat) {
    DigitValue(c).Some? && DigitValue(c).value < radix
  }

  /** The length of the run of digits `s` begins with. */
  function DigitRun(s: string, radix: nat): (n: nat)
    ensures n <= |s|
    ensures forall i | 0 <= i < n :: IsRadixDigit(s[i], radix)
    ensures n < |s| ==> !IsRadixDigit(s[n], radix)
    decreases |s|
  {
    if s == [] || !IsRadixDigit(s[0], radix) then 0 else 1 + DigitRun(s[1..], radix)
  }

  /** The number a run of digits spells. */
  function DigitsValue(s: string, radix: nat): nat
    requires forall i | 0 <= i < |s| :: IsRadixDigit(s[i], radix)
    decreases |s|
  {
    if s == [] then 0
    else
      var init := s[..|s| - 1];
      assert forall i | 0 <= i < |init| :: IsRadixDigit(init[i], radix) by {
        forall i | 0 <= i < |init| ensures IsRadixDigit(init[i], radix) {
          assert init[i] == s[i];
        }
      }
      assert IsRadixDigit(s[|s| - 1], radix);
      DigitsValue(init, radix) * radix + DigitValue(s[|s| - 1]).value
  }

  /** `parseInt(s)` without a radix: leading white space, an optional sign,
    * then the digits; no digit gives `NaN` (`None`). */
  function ParseInt(s: string): Option<int> {
    Signed(TrimStart(s))
  }

  /** What follows an optional sign. */
  function Unsign(t: string): string {
    if t != [] && (t[0] == '-' || t[0] == '+') then t[1..] else t
  }

  /** The optional sign, then the digits. */
  function Signed(t: string): Option<int> {
    var v := Unsigned(Unsign(t));
    if v.None? then None
    else if t != [] && t[0] == '-' then Some(-(v.value as int))
    else Some(v.value as int)
  }

  /** A `0x` or `0X` prefix reads base 16, anything else base 10; as many
    * digits are read as there are. */
  function Unsigned(u: string): Option<nat> {
    var hex := |u| >= 2 && u[0] == '0' && (u[1] == 'x' || u[1] == 'X');
    var radix := if hex then 16 else 10;
    var w := if hex then u[2..] else u;
    var n := DigitRun(w, radix);
    if n == 0 then None else Some(DigitsValue(w[..n], radix))
  }

  /** `String(y)` for an integer year. */
  function YearText(y: int): string {
    if y < 0 then "-" + Decimal(-y) else Decimal(y)
  }

  /** The decimal digits spell the number back. */
  lemma {:induction false} DecimalValue(n: nat)
    ensures forall i | 0 <= i < |Decimal(n)| :: IsRadixDigit(Decimal(n)[i], 10)
    ensures DigitsValue(Decimal(n), 10) == n
    decreases n
  {
    var s := Decimal(n);
    assert forall i | 0 <= i < |s| :: IsRadixDigit(s[i], 10) by {
      forall i | 0 <= i < |s| ensures IsRadixDigit(s[i], 10) {
        assert IsDigit(s[i]);
      }
    }
    if n >= 10 {
      DecimalValue(n / 10);
      assert s[..|s| - 1] == Decimal(n / 10);
    }
  }

  /** Decimal digits are read in base 10 and in full. */
  lemma DecimalParts(n: nat)
    ensures var s := Decimal(n);
      && TrimStart(s) == s && s[0] != '-' && s[0] != '+'
      && (|s| >= 2 ==> s[1] != 'x' && s[1] != 'X')
  {
    var s := Decimal(n);
    assert IsDigit(s[0]);
    assert "" + s == s;
    TrimStartPadded("", s);
    if |s| >= 2 {
      assert IsDigit(s[1]);
    }
  }

  /** A run of digits covering the whole string. */
  lemma RunCovers(s: string, radix: nat)
    requires forall i | 0 <= i < |s| :: IsRadixDigit(s[i], radix)
    ensures DigitRun(s, radix) == |s|
  {
  }

  /** A digit string without a `0x` prefix is read in base 10 and in full. */
  lemma UnsignedDigits(d: string)
    requires d != [] && forall i | 0 <= i < |d| :: IsRadixDigit(d[i], 10)
    requires |d| >= 2 ==> d[1] != 'x' && d[1] != 'X'
    ensures Unsigned(d) == Some(DigitsValue(d, 10))
  {
    RunCovers(d, 10);
    assert d[..|d|] == d;
  }

  /** A digit string `parseInt` reads in base 10 and in full. */
  lemma ParseDigits(d: string)
    requires d != [] && forall i | 0 <= i < |d| :: IsRadixDigit(d[i], 10)
    requires TrimStart(d) == d && d[0] != '-' && d[0] != '+'
    requires |d| >= 2 ==> d[1] != 'x' && d[1] != 'X'
    ensures ParseInt(d) == Some(DigitsValue(d, 10) as int)
  {
    UnsignedDigits(d);
  }

  /** The same digits after a minus sign give the negated value. */
  lemma ParseNegative(d: string, v: nat)
    requires Unsigned(d) == Some(v)
    ensures ParseInt("-" + d) == Some(-(v as int))
  {
    var t := "-" + d;
    SignedTrimmed(d);
    assert t[1..] == d;
    NegatedParse(t, v);
  }

  /** A trimmed string that opens with a minus sign parses to the negated
    * value of what follows the sign. */
  lemma NegatedParse(t: string, v: nat)
    requires TrimStart(t) == t && t != [] && t[0] == '-' && Unsigned(t[1..]) == Some(v)
    ensures ParseInt(t) == Some(-(v as int))
  {
  }

  /** A minus sign is no white space. */
  lemma SignedTrimmed(d: string)
    ensures TrimStart("-" + d) == "-" + d
  {
    var t := "-" + d;
    assert !IsSpace(t[0]);
    assert "" + t == t;
    TrimStartPadded("", t);
  }

  /** A year written out by `String` is read back by `parseInt`: the values
    * of the year menu select exactly that year. */
  lemma ParseYearText(y: int)
    ensures ParseInt(YearText(y)) == Some(y)
  {
    var m: nat := if y < 0 then -y else y;
    DecimalValue(m);
    DecimalParts(m);
    if y < 0 {
      assert Unsigned(Decimal(m)) == Some(m) by {
        UnsignedDigits(Decimal(m));
      }
      ParseNegative(Decimal(m), m);
    } else {
      ParseDigits(Decimal(m));
    }
  }

  // ---------------------------------------------------------------------
  // Filters

  /** The four filter fields; an empty one imposes nothing. */
  datatype Filters = Filters(year: string, month: string, title: string, mood: string)

  const NoFilters := Filters("", "", "", "")

  datatype Field = YearField | MonthField | TitleField | MoodField

  /** The year step: the filed year equals `parseInt(filters.year)`. */
  predicate YearTest(f: Filters, year: int -> int, p: Post) {
    f.year == [] || ParseInt(f.year) == Some(year(When(p)))
  }

  /** The month step: the filed month's name equals the filter. */
  predicate MonthTest(f: Filters, month: int -> string, p: Post) {
    f.month == [] || month(When(p)) == f.month
  }

  /** The title step: the title contains the query, ignoring case. */
  predicate TitleTest(f: Filters, p: Post) {
    f.title == [] || ContainsIgnoringCase(p.title, f.title)
  }

  /** The mood step: a post without a mood is dropped, otherwise the mood
    * contains the query, ignoring case. */
  predicate MoodTest(f: Filters, p: Post) {
    f.mood == [] || (p.mood != [] && ContainsIgnoringCase(p.mood, f.mood))
  }

  /** A post the whole pipeline keeps. */
  predicate Matches(f: Filters, year: int -> int, month: int -> string, p: Post) {
    YearTest(f, year, p) && MonthTest(f, month, p) && TitleTest(f, p) && MoodTest(f, p)
  }

  /** The tests as functions, for `filter`. */
  function YearStep(f: Filters, year: int -> int): Post -> bool { p => YearTest(f, year, p) }
  function MonthStep(f: Filters, month: int -> string): Post -> bool { p => MonthTest(f, month, p) }
  function TitleStep(f: Filters): Post -> bool { p => TitleTest(f, p) }
  function MoodStep(f: Filters): Post -> bool { p => MoodTest(f, p) }
  function MatchStep(f: Filters, year: int -> int, month: int -> string): Post -> bool {
    p => Matches(f, year, month, p)
  }

  /** What the filter effect shows. */
  function FilteredPosts(posts: seq<Post>, f: Filters, year: int -> int, month: int -> string): seq<Post> {
    Filter(posts, MatchStep(f, year, month))
  }

  /** The shown posts are the posts that pass every filter, in their order. */
  lemma FilteredMembers(posts: seq<Post>, f: Filters, year: int -> int, month: int -> string, p: Post)
    ensures p in FilteredPosts(posts, f, year, month) <==> p in posts && Matches(f, year, month, p)
  {
  }

  /** Filtering two runs of posts gives the filtered runs in order. */
  lemma FilteredInOrder(a: seq<Post>, b: seq<Post>, f: Filters, year: int -> int, month: int -> string)
    ensures FilteredPosts(a + b, f, year, month) == FilteredPosts(a, f, year, month) + FilteredPosts(b, f, year, month)
  {
    FilterAppend(a, b, MatchStep(f, year, month));
  }

  /** With every field empty, all posts are shown. */
  lemma NoFiltersShowAll(posts: seq<Post>, year: int -> int, month: int -> string)
    ensures FilteredPosts(posts, NoFilters, year, month) == posts
  {
    FilterAll(posts, MatchStep(NoFilters, year, month));
  }

  /** The year chosen in the menu keeps the posts filed under that year. */
  lemma YearMenuFilter(f: Filters, y: int, year: int -> int, p: Post)
    requires f.year == YearText(y)
    ensures YearTest(f, year, p) <==> year(When(p)) == y
  {
    ParseYearText(y);
  }

  /** The dashboard's list state. */
  class Dashboard {
    var posts: seq<Post>
    var filters: Filters
    var filteredPosts: seq<Post>

    constructor ()
      ensures posts == [] && filters == NoFilters && filteredPosts == []
    {
      posts := [];
      filters := NoFilters;
      filteredPosts := [];
    }

    /** `handleFilterChange`: one field takes the value. */
    method SetFilter(field: Field, value: string)
      modifies this`filters
      ensures filters == match field
        case YearField => old(filters).(year := value)
        case MonthField => old(filters).(month := value)
        case TitleField => old(filters).(title := value)
        case MoodField => old(filters).(mood := value)
    {
      match field
      case YearField => filters := filters.(year := value);
      case MonthField => filters := filters.(month := value);
      case TitleField => filters := filters.(title := value);
      case MoodField => filters := filters.(mood := value);
    }

    /** `handleClearFilters`: every field empty. */
    method ClearFilters()
      modifies this`filters
      ensures filters == NoFilters
    {
      filters := NoFilters;
    }

    /** The filter effect: each non-empty field narrows the list in turn, and
      * the result is the posts that pass every filter. */
    method ApplyFilters(year: int -> int, month: int -> string)
      modifies this`filteredPosts
      ensures filteredPosts == FilteredPosts(posts, filters, year, month)
    {
      var f := filters;
      var filtered := posts;
      if f.year != [] {
        filtered := Filter(filtered, YearStep(f, year));
      }
      ghost var step1 := YearStep(f, year);
      assert filtered == Filter(posts, step1) by {
        FilterSame(posts, step1, YearStep(f, year));
        if f.year == [] {
          FilterAll(posts, step1);
        }
      }
      ghost var before := filtered;
      if f.month != [] {
        filtered := Filter(filtered, MonthStep(f, month));
      }
      ghost var step2: Post -> bool := p => YearTest(f, year, p) && MonthTest(f, month, p);
      assert filtered == Filter(posts, step2) by {
        FilterThen(posts, step1, MonthStep(f, month), step2);
        if f.month == [] {
          FilterAll(before, MonthStep(f, month));
        }
      }
      before := filtered;
      if f.title != [] {
        filtered := Filter(filtered, TitleStep(f));
      }
      ghost var step3: Post -> bool := p => YearTest(f, year, p) && MonthTest(f, month, p) && TitleTest(f, p);
      assert filtered == Filter(posts, step3) by {
        FilterThen(posts, step2, TitleStep(f), step3);
        if f.title == [] {
          FilterAll(before, TitleStep(f));
        }
      }
      before := filtered;
      if f.mood != [] {
        filtered := Filter(filtered, MoodStep(f));
      }
      assert filtered == Filter(posts, MatchStep(f, year, month)) by {
        FilterThen(posts, step3, MoodStep(f), MatchStep(f, year, month));
        if f.mood == [] {
          FilterAll(before, MoodStep(f));
        }
      }
      filteredPosts := filtered;
    }
  }

  // ---------------------------------------------------------------------
  // The year menu and the counters

  /** `getUniqueYears`: the years the posts are filed under, each once, from
    * the latest down. */
  function UniqueYears(posts: seq<Post>, year: int -> int): (r: seq<int>)
    ensures StrictlyDescending(r)
    ensures forall y | y in r :: exists p | p in posts :: year(When(p)) == y
    ensures forall p | p in posts :: year(When(p)) in r
    decreases |posts|
  {
    if posts == [] then []
    else
      var p := posts[|posts| - 1];
      var r := InsertDescending(year(When(p)), UniqueYears(posts[..|posts| - 1], year));
      assert forall q | q in posts[..|posts| - 1] :: q in posts;
      assert posts == posts[..|posts| - 1] + [p];
      r
  }

  /** `posts.filter(p => p.isPublished).length`. */
  function PublishedCount(posts: seq<Post>): nat {
    |Filter(posts, (p: Post) => p.isPublished)|
  }

  /** `posts.filter(p => !p.isPublished).length`. */
  function DraftCount(posts: seq<Post>): nat {
    |Filter(posts, (p: Post) => !p.isPublished)|
  }

  /** `posts.filter(p => p.media).length`. */
  function MediaCount(posts: seq<Post>): nat {
    |Filter(posts, (p: Post) => p.media != [])|
  }

  /** Every post is published or a draft, and at most every post has media. */
  lemma CountsAddUp(posts: seq<Post>)
    ensures PublishedCount(posts) + DraftCount(posts) == |posts|
    ensures MediaCount(posts) <= |posts|
  {
    FilterSplit(posts, (p: Post) => p.isPublished, (p: Post) => !p.isPublished);
  }
}
