/** The student's enrolment page: HTML escaping, the status label, the status and search
    filters applied before the list is drawn, and which cards offer a cancel button. */
module EnrollmentView {
  import opened Wrappers
  import opened Text
  import opened Enrollments

  // ---------------------------------------------------------------------------
  // HTML escaping

  /** The five characters the escaper rewrites. */
  predicate IsMarkup(c: char) {
    c == '&' || c == '<' || c == '>' || c == '"' || c == '\''
  }

  /** The entity each markup character becomes; every other character stands for itself. */
  function EscapeChar(c: char): (r: string)
    ensures IsMarkup(c) ==> |r| >= 4 && r[0] == '&' && r[|r| - 1] == ';'
    ensures !IsMarkup(c) ==> r == [c]
  {
    match c
    case '&' => "&amp;"
    case '<' => "&lt;"
    case '>' => "&gt;"
    case '"' => "&quot;"
    case '\'' => "&#039;"
    case _ => [c]
  }

  /** No character that could open a tag or close an attribute value. */
  predicate NoRawMarkup(s: string) {
    forall i | 0 <= i < |s| :: s[i] != '<' && s[i] != '>' && s[i] != '"' && s[i] != '\''
  }

  /** The replacement applied to every character of a present value. */
  function EscapeText(s: string): (r: string)
    ensures NoRawMarkup(r)
    ensures (forall i | 0 <= i < |s| :: !IsMarkup(s[i])) ==> r == s
    ensures |s| <= |r|
    decreases |s|
  {
    if |s| == 0 then ""
    else
      var head := EscapeChar(s[0]);
      assert NoRawMarkup(head);
      head + EscapeText(s[1..])
  }

  /** `escapeHtml`: null and undefined become the empty string. */
  function EscapeHtml(text: Option<string>): (r: string)
    ensures text.None? ==> r == ""
    ensures NoRawMarkup(r)
  {
    match text
    case None => ""
    case Some(s) => EscapeText(s)
  }

  /** The browser's reading of the five entities, the inverse the escaper is written for. */
  function Unescape(s: string): (r: string)
    decreases |s|
  {
    if |s| == 0 then ""
    else if |s| >= 5 && s[..5] == "&amp;" then "&" + Unescape(s[5..])
    else if |s| >= 4 && s[..4] == "&lt;" then "<" + Unescape(s[4..])
    else if |s| >= 4 && s[..4] == "&gt;" then ">" + Unescape(s[4..])
    else if |s| >= 6 && s[..6] == "&quot;" then "\"" + Unescape(s[6..])
    else if |s| >= 6 && s[..6] == "&#039;" then "'" + Unescape(s[6..])
    else [s[0]] + Unescape(s[1..])
  }

  /** Decoding an escaped character gives the character back, whatever follows it. */
  lemma UnescapeChar(c: char, t: string)
    ensures Unescape(EscapeChar(c) + t) == [c] + Unescape(t)
  {
    if !IsMarkup(c) {
      UnescapePlain(c, t);
    } else if c == '&' {
      UnescapeAmpersand(t);
    } else {
      UnescapeEntity(c, t);
    }
  }

  lemma UnescapePlain(c: char, t: string)
    requires !IsMarkup(c)
    ensures Unescape([c] + t) == [c] + Unescape(t)
  {
    var s := [c] + t;
    assert s[0] == c && s[1..] == t;
    assert |s| < 4 || (s[..4] != "&lt;" && s[..4] != "&gt;") by {
      if |s| >= 4 { assert s[..4][0] == c; }
    }
    assert |s| < 5 || s[..5] != "&amp;" by {
      if |s| >= 5 { assert s[..5][0] == c; }
    }
    assert |s| < 6 || (s[..6] != "&quot;" && s[..6] != "&#039;") by {
      if |s| >= 6 { assert s[..6][0] == c; }
    }
  }

  lemma UnescapeAmpersand(t: string)
    ensures Unescape("&amp;" + t) == "&" + Unescape(t)
  {
    var s := "&amp;" + t;
    assert s[..5] == "&amp;" && s[5..] == t;
  }

  /** The four entities that do not start like `&amp;`. */
  lemma UnescapeEntity(c: char, t: string)
    requires IsMarkup(c) && c != '&'
    ensures Unescape(EscapeChar(c) + t) == [c] + Unescape(t)
  {
    var e := EscapeChar(c);
    var s := e + t;
    assert s[..|e|] == e && s[|e|..] == t;
    assert |s| < 5 || s[..5] != "&amp;" by {
      if |s| >= 5 { assert s[1] == e[1] != 'a'; }
    }
    if c == '<' {
      assert s[..4] == "&lt;";
    } else if c == '>' {
      assert s[..4] != "&lt;" by { assert s[1] == 'g'; }
      assert s[..4] == "&gt;";
    } else {
      assert s[..4] != "&lt;" && s[..4] != "&gt;" by { assert s[1] == e[1]; }
      if c == '"' {
        assert s[..6] == "&quot;";
      } else {
        assert s[..6] != "&quot;" by { assert s[1] == '#'; }
        assert s[..6] == "&#039;";
      }
    }
  }

  /** What the page shows is exactly the text it was given. */
  lemma {:induction false} EscapeRoundTrip(s: string)
    ensures Unescape(EscapeText(s)) == s
    decreases |s|
  {
    if |s| > 0 {
      UnescapeChar(s[0], EscapeText(s[1..]));
      EscapeRoundTrip(s[1..]);
      assert [s[0]] + s[1..] == s;
    }
  }

  /** Two different texts never escape to the same markup. */
  lemma EscapeInjective(a: string, b: string)
    requires EscapeText(a) == EscapeText(b)
    ensures a == b
  {
    EscapeRoundTrip(a);
    EscapeRoundTrip(b);
  }

  // ---------------------------------------------------------------------------
  // Labels and buttons

  /** `getEnrollmentStatusText`: two statuses get a Korean label; any other value is
      shown as it came. */
  function GetEnrollmentStatusText(status: string): (r: string)
    ensures status == "APPROVED" ==> r == "수강중"
    ensures status == "CANCELLED" ==> r == "취소됨"
    ensures status != "APPROVED" && status != "CANCELLED" ==> r == status
  {
    if status == "APPROVED" then "수강중"
    else if status == "CANCELLED" then "취소됨"
    else status
  }

  /** For the four statuses the server sends, the labels are pairwise different, so the
      badge always tells the statuses apart; only APPROVED and CANCELLED are translated. */
  lemma StatusLabelsDistinct(s: EnrollmentStatus, t: EnrollmentStatus)
    ensures GetEnrollmentStatusText(StatusName(s)) == GetEnrollmentStatusText(StatusName(t)) <==> s == t
    ensures GetEnrollmentStatusText(StatusName(s)) == StatusName(s) <==> s == Applied || s == Rejected
  {
  }

  /** A card offers the cancel button only for an APPROVED enrolment. */
  predicate CanCancel(status: string) {
    status == "APPROVED"
  }

  /** The button is shown for a subset of what the server would cancel: every enrolment
      with the button is active, but an active APPLIED enrolment has none. */
  lemma CancelButtonWithinServerRule(e: Enrollment)
    ensures CanCancel(StatusName(e.status)) <==> IsApproved(e)
    ensures CanCancel(StatusName(e.status)) ==> IsActive(e)
    ensures e.status == Applied ==> IsActive(e) && !CanCancel(StatusName(e.status))
  {
  }

  // ---------------------------------------------------------------------------
  // Filters

  /** One card's data as the page receives it. The instructor's name may arrive nested
      under the course, flat on the course, or not at all. */
  datatype Card = Card(
    id: nat,
    status: string,
    courseName: string,
    description: Option<string>,
    nestedInstructorName: Option<string>,
    instructorName: Option<string>)

  /** JavaScript truthiness of an optional string: present and non-empty. */
  predicate Truthy(s: Option<string>) {
    s.Some? && s.value != ""
  }

  /** `(course.instructor && course.instructor.name) || course.instructorName || ''`. */
  function InstructorNameOf(c: Card): (r: string)
    ensures Truthy(c.nestedInstructorName) ==> r == c.nestedInstructorName.value
    ensures !Truthy(c.nestedInstructorName) && Truthy(c.instructorName) ==> r == c.instructorName.value
    ensures !Truthy(c.nestedInstructorName) && !Truthy(c.instructorName) ==> r == ""
  {
    if Truthy(c.nestedInstructorName) then c.nestedInstructorName.value
    else if Truthy(c.instructorName) then c.instructorName.value
    else ""
  }

  /** The cards of `s` that satisfy `keep`, in their original order. */
  function Filter(s: seq<Card>, keep: Card -> bool): (r: seq<Card>)
    ensures |r| <= |s|
    ensures forall c :: c in r <==> c in s && keep(c)
    ensures (forall i | 0 <= i < |s| :: keep(s[i])) ==> r == s
    decreases |s|
  {
    if |s| == 0 then []
    else (if keep(s[0]) then [s[0]] else []) + Filter(s[1..], keep)
  }

  /** `r` can be obtained from `s` by deleting cards, so the cards keep their order. */
  predicate SubsequenceOf(r: seq<Card>, s: seq<Card>)
    decreases |s|
  {
    if |r| == 0 then true
    else if |s| == 0 then false
    else (r[0] == s[0] && SubsequenceOf(r[1..], s[1..])) || SubsequenceOf(r, s[1..])
  }

  lemma {:induction false} SubsequenceOfSelf(s: seq<Card>)
    ensures SubsequenceOf(s, s)
    decreases |s|
  {
    if |s| > 0 {
      SubsequenceOfSelf(s[1..]);
    }
  }

  lemma {:induction false} FilterIsSubsequence(s: seq<Card>, keep: Card -> bool)
    ensures SubsequenceOf(Filter(s, keep), s)
    decreases |s|
  {
    if |s| > 0 {
      FilterIsSubsequence(s[1..], keep);
      var r := Filter(s, keep);
      if keep(s[0]) {
        assert r[0] == s[0] && r[1..] == Filter(s[1..], keep);
      } else {
        assert r == Filter(s[1..], keep);
      }
    }
  }

  /** Filtering by one test and then another keeps the same cards as the other order. */
  lemma {:induction false} FiltersCommute(s: seq<Card>, p: Card -> bool, q: Card -> bool)
    ensures Filter(Filter(s, p), q) == Filter(Filter(s, q), p)
    decreases |s|
  {
    if |s| > 0 {
      var h, t := s[0], s[1..];
      FiltersCommute(t, p, q);
      var hp := if p(h) then [h] else [];
      var hq := if q(h) then [h] else [];
      FilterAppend(hp, Filter(t, p), q);
      FilterAppend(hq, Filter(t, q), p);
      assert Filter(hp, q) == Filter(hq, p) by {
        FilterOfSingleton(h, p);
        FilterOfSingleton(h, q);
      }
    }
  }

  lemma FilterOfSingleton(h: Card, keep: Card -> bool)
    ensures Filter([h], keep) == if keep(h) then [h] else []
    ensures Filter([], keep) == []
  {
    assert [h][1..] == [];
  }

  lemma {:induction false} FilterAppend(a: seq<Card>, b: seq<Card>, keep: Card -> bool)
    ensures Filter(a + b, keep) == Filter(a, keep) + Filter(b, keep)
    decreases |a|
  {
    if |a| > 0 {
      assert (a + b)[0] == a[0];
      assert (a + b)[1..] == a[1..] + b;
      FilterAppend(a[1..], b, keep);
    } else {
      assert a + b == b;
    }
  }

  const AllStatuses: string := "all"

  /** The status filter's test for one card. */
  function StatusMatches(filter: string): Card -> bool {
    (c: Card) => filter == AllStatuses || c.status == filter
  }

  /** The status filter: `all` keeps every card, any other value exactly the cards with
      that status. */
  function FilterByStatus(cards: seq<Card>, filter: string): (r: seq<Card>)
    ensures filter == AllStatuses ==> r == cards
    ensures forall c :: c in r <==> c in cards && (filter == AllStatuses || c.status == filter)
    ensures SubsequenceOf(r, cards)
  {
    FilterIsSubsequence(cards, StatusMatches(filter));
    if filter == AllStatuses then
      SubsequenceOfSelf(cards);
      cards
    else Filter(cards, StatusMatches(filter))
  }

  /** The search test: the term occurs, ignoring case, in the course name, the description
      or the instructor's name. An empty description never matches. */
  predicate MatchesTerm(c: Card, term: string) {
    || Contains(Lower(c.courseName), term)
    || (Truthy(c.description) && Contains(Lower(c.description.value), term))
    || Contains(Lower(InstructorNameOf(c)), term)
  }

  function SearchMatches(term: string): Card -> bool {
    (c: Card) => MatchesTerm(c, term)
  }

  /** The search filter: the input is trimmed and lower-cased; an empty term keeps every
      card, any other keeps exactly the cards it matches. */
  function FilterBySearch(cards: seq<Card>, input: string): (r: seq<Card>)
    ensures Lower(Trim(input)) == "" ==> r == cards
    ensures forall c :: c in r <==> c in cards && (Lower(Trim(input)) == "" || MatchesTerm(c, Lower(Trim(input))))
    ensures SubsequenceOf(r, cards)
  {
    var term := Lower(Trim(input));
    FilterIsSubsequence(cards, SearchMatches(term));
    if term == "" then
      SubsequenceOfSelf(cards);
      cards
    else Filter(cards, SearchMatches(term))
  }

  /** The list `displayEnrollments` draws: status filter first, then the search. */
  function DisplayedCards(cards: seq<Card>, statusFilter: string, input: string): (r: seq<Card>)
    ensures forall c :: c in r <==>
              && c in cards
              && (statusFilter == AllStatuses || c.status == statusFilter)
              && (Lower(Trim(input)) == "" || MatchesTerm(c, Lower(Trim(input))))
  {
    FilterBySearch(FilterByStatus(cards, statusFilter), input)
  }

  /** The two filters may be applied in either order. */
  lemma FilterOrderIrrelevant(cards: seq<Card>, statusFilter: string, input: string)
    ensures DisplayedCards(cards, statusFilter, input) == FilterByStatus(FilterBySearch(cards, input), statusFilter)
  {
    var term := Lower(Trim(input));
    if statusFilter != AllStatuses && term != "" {
      FiltersCommute(cards, StatusMatches(statusFilter), SearchMatches(term));
    }
  }

  /** A blank search box, whatever white space it holds, hides nothing. */
  lemma BlankSearchKeepsAll(cards: seq<Card>, input: string)
    requires forall i | 0 <= i < |input| :: IsSpace(input[i])
    ensures FilterBySearch(cards, input) == cards
  {
    TrimOfBlank(input);
  }

  lemma {:induction false} TrimOfBlank(s: string)
    requires forall i | 0 <= i < |s| :: IsSpace(s[i])
    ensures Trim(s) == ""
    decreases |s|
  {
    if |s| > 0 {
      TrimOfBlank(s[1..]);
      assert TrimStart(s) == TrimStart(s[1..]);
    }
  }
}
