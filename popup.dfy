/**
  The "note link" browser extension: for the active tab it picks a link
  text and a description (a Go issue number and title, a Go CL number and
  subject, or just the page title) and copies `link - description` to the
  clipboard.

  The tab's URL and title are sequences of Unicode scalar values, one
  `char` each, where JavaScript sees UTF-16 code units: a lone surrogate
  has no counterpart here, and a character outside the Basic Multilingual
  Plane is one `char` rather than two units. The captures agree anyway,
  because each begins at an ASCII literal or a line start and ends before
  an ASCII tail or a line terminator, or is the whole title.

  The two regular expressions are written out as the searches a
  backtracking matcher performs: the leftmost start that can match and,
  for a greedy `(\d+)` or `(.*)`, the longest extent from it.
 */
module Popup {
  import opened Wrappers
  import opened GoStrings

  /** The active tab. */
  datatype Tab = Tab(url: string, title: string)

  /** What a matcher returns. */
  datatype Match = Match(link: string, description: string)

  /** The matchers, tried in this order. */
  datatype Matcher = GitHubMatcher | GerritMatcher

  const Matchers: seq<Matcher> := [GitHubMatcher, GerritMatcher]

  // ---------------------------------------------------------------------------
  // `<literal>(\d+)` on the URL
  // ---------------------------------------------------------------------------

  /** `\d`: an ASCII digit. */
  predicate IsDigit(c: char) {
    '0' <= c <= '9'
  }

  /** The length of the run of digits starting at `i`. */
  function DigitRun(s: string, i: nat): (n: nat)
    requires i <= |s|
    ensures i + n <= |s|
    ensures forall k :: i <= k < i + n ==> IsDigit(s[k])
    ensures i + n == |s| || !IsDigit(s[i + n])
    decreases |s| - i
  {
    if i < |s| && IsDigit(s[i]) then 1 + DigitRun(s, i + 1) else 0
  }

  /** `lit` followed by at least one digit starts at `p`. */
  predicate NumberedAt(s: string, lit: string, p: nat) {
    OccursAt(s, lit, p) && DigitRun(s, p + |lit|) > 0
  }

  /** The leftmost position at or after `from` where `lit(\d+)` matches. */
  function FindNumbered(s: string, lit: string, from: nat): (r: Option<nat>)
    ensures r.Some? ==> from <= r.value && NumberedAt(s, lit, r.value)
    ensures forall p :: from <= p && (r.None? || p < r.value) ==> !NumberedAt(s, lit, p)
    decreases |s| - from
  {
    if from + |lit| > |s| then None
    else if NumberedAt(s, lit, from) then Some(from)
    else FindNumbered(s, lit, from + 1)
  }

  /** The first capture of `lit(\d+)`: all the digits after the leftmost `lit` that is followed by one. */
  function NumberAfter(s: string, lit: string): (r: Option<string>)
    ensures r.None? <==> forall p :: !NumberedAt(s, lit, p)
    ensures r.Some? ==> |r.value| > 0 && forall k :: 0 <= k < |r.value| ==> IsDigit(r.value[k])
  {
    match FindNumbered(s, lit, 0)
    case None => None
    case Some(p) =>
      var start := p + |lit|;
      Some(s[start..start + DigitRun(s, start)])
  }

  /** The captured number is followed by a non-digit or the end, and preceded by the literal. */
  lemma NumberAfterSpec(s: string, lit: string)
    requires NumberAfter(s, lit).Some?
    ensures var p := FindNumbered(s, lit, 0).value;
            var n := NumberAfter(s, lit).value;
            && OccursAt(s, lit, p)
            && OccursAt(s, n, p + |lit|)
            && (p + |lit| + |n| == |s| || !IsDigit(s[p + |lit| + |n|]))
            && forall q :: 0 <= q < p ==> !NumberedAt(s, lit, q)
  {
  }

  const GitHubIssuePattern := "github.com/golang/go/issues/"
  const GerritChangePattern := "go-review.googlesource.com/c/go/+/"

  // ---------------------------------------------------------------------------
  // `(.*) \(I[0-9a-f]+\) · Gerrit Code Review` on the title
  // ---------------------------------------------------------------------------

  /** The characters `.` does not match. */
  predicate IsLineTerminator(c: char) {
    c == '\n' || c == '\r' || c == '\U{2028}' || c == '\U{2029}'
  }

  /** `[0-9a-f]` */
  predicate IsLowerHex(c: char) {
    IsDigit(c) || 'a' <= c <= 'f'
  }

  /** The length of the run of lower-case hex digits starting at `i`. */
  function HexRun(s: string, i: nat): (n: nat)
    requires i <= |s|
    ensures i + n <= |s|
    ensures forall k :: i <= k < i + n ==> IsLowerHex(s[k])
    ensures i + n == |s| || !IsLowerHex(s[i + n])
    decreases |s| - i
  {
    if i < |s| && IsLowerHex(s[i]) then 1 + HexRun(s, i + 1) else 0
  }

  const GerritTitleEnd := ") \U{00B7} Gerrit Code Review"

  /**
    ` \(I[0-9a-f]+\) · Gerrit Code Review` matches at `e`. The hex digits
    must run right up to the `)`, which is not itself a hex digit, so only
    the whole run can match.
   */
  predicate TailAt(s: string, e: nat) {
    && OccursAt(s, " (I", e)
    && HexRun(s, e + 3) > 0
    && OccursAt(s, GerritTitleEnd, e + 3 + HexRun(s, e + 3))
  }

  /** `(.*)` can span `s[a..b]`: no line terminator in it. */
  predicate NoTerminator(s: string, a: nat, b: nat)
    requires a <= b <= |s|
  {
    forall k :: a <= k < b ==> !IsLineTerminator(s[k])
  }

  /** The end of the line that `i` is on: the first line terminator at or after `i`, or the end of `s`. */
  function LineEnd(s: string, i: nat): (r: nat)
    requires i <= |s|
    ensures i <= r <= |s| && NoTerminator(s, i, r)
    ensures r == |s| || IsLineTerminator(s[r])
    decreases |s| - i
  {
    if i == |s| || IsLineTerminator(s[i]) then i else LineEnd(s, i + 1)
  }

  /** The largest `e` in `[a, b]` where the tail matches. */
  function LastTail(s: string, a: nat, b: nat): (r: Option<nat>)
    requires a <= b <= |s|
    ensures r.Some? ==> a <= r.value <= b && TailAt(s, r.value)
    ensures forall e :: a <= e <= b && (r.None? || r.value < e) ==> !TailAt(s, e)
    decreases b - a
  {
    if TailAt(s, b) then Some(b)
    else if a == b then None
    else LastTail(s, a, b - 1)
  }

  /** The match of the whole pattern from start `i`: the greedy `(.*)` ends at the last tail on the line. */
  function MatchFrom(s: string, i: nat): (r: Option<nat>)
    requires i <= |s|
    ensures r.Some? ==> i <= r.value <= |s| && NoTerminator(s, i, r.value) && TailAt(s, r.value)
    ensures forall e :: i <= e <= |s| && NoTerminator(s, i, e) && (r.None? || r.value < e) ==> !TailAt(s, e)
  {
    var end := LineEnd(s, i);
    var r := LastTail(s, i, end);
    assert forall e :: end < e <= |s| ==> !NoTerminator(s, i, e) by {
      forall e | end < e <= |s| ensures !NoTerminator(s, i, e) {
        assert IsLineTerminator(s[end]);
      }
    }
    r
  }

  /** The leftmost start at or after `from` with a match, and where the capture ends. */
  function LeftmostMatch(s: string, from: nat): (r: Option<(nat, nat)>)
    requires from <= |s|
    ensures r.Some? ==> from <= r.value.0 <= |s| && MatchFrom(s, r.value.0) == Some(r.value.1)
    ensures forall i :: from <= i <= |s| && (r.None? || i < r.value.0) ==> MatchFrom(s, i).None?
    decreases |s| - from
  {
    match MatchFrom(s, from)
    case Some(e) => Some((from, e))
    case None => if from == |s| then None else LeftmostMatch(s, from + 1)
  }

  /** The first capture of the Gerrit title pattern, or "" when the title does not match. */
  function GerritSubject(title: string): (r: string)
  {
    match LeftmostMatch(title, 0)
    case None => ""
    case Some((i, e)) => title[i..e]
  }

  /**
    What the capture is: the text from the leftmost possible start up to
    the last tail on that start's line; it holds no line terminator and is
    followed by the tail. With no match anywhere the description is "".
   */
  lemma GerritSubjectSpec(title: string)
    ensures LeftmostMatch(title, 0).None? ==>
              && GerritSubject(title) == ""
              && forall i, e :: 0 <= i <= e <= |title| && NoTerminator(title, i, e) ==> !TailAt(title, e)
    ensures LeftmostMatch(title, 0).Some? ==>
              var (i, e) := LeftmostMatch(title, 0).value;
              && GerritSubject(title) == title[i..e]
              && NoTerminator(title, i, e) && TailAt(title, e)
              && (forall e' :: e < e' <= |title| && NoTerminator(title, i, e') ==> !TailAt(title, e'))
              && (forall i', e' :: 0 <= i' < i && i' <= e' <= |title| && NoTerminator(title, i', e') ==> !TailAt(title, e'))
  {
    if LeftmostMatch(title, 0).None? {
      forall i, e | 0 <= i <= e <= |title| && NoTerminator(title, i, e) ensures !TailAt(title, e) {
        assert MatchFrom(title, i).None?;
      }
    } else {
      var (i, e) := LeftmostMatch(title, 0).value;
      forall i', e' | 0 <= i' < i && i' <= e' <= |title| && NoTerminator(title, i', e') ensures !TailAt(title, e') {
        assert MatchFrom(title, i').None?;
      }
    }
  }

  /** A title ending in ` (I<hex>) · Gerrit Code Review` on one line with no other tail gives everything before that. */
  lemma GerritSubjectOfChangeTitle(subject: string, changeId: string)
    requires |changeId| > 0 && forall k :: 0 <= k < |changeId| ==> IsLowerHex(changeId[k])
    requires forall k :: 0 <= k < |subject| ==> !IsLineTerminator(subject[k])
    ensures var title := subject + " (I" + changeId + GerritTitleEnd;
            LeftmostMatch(title, 0).Some? && LeftmostMatch(title, 0).value.0 == 0
  {
    var title := subject + " (I" + changeId + GerritTitleEnd;
    var e := |subject|;
    assert title[e..e + 3] == " (I";
    assert forall k :: 0 <= k < |changeId| ==> title[e + 3 + k] == changeId[k];
    assert title[e + 3 + |changeId|] == ')';
    assert HexRun(title, e + 3) == |changeId| by {
      HexRunOf(title, e + 3, |changeId|);
    }
    assert title[e + 3 + |changeId|..] == GerritTitleEnd;
    assert TailAt(title, e);
    assert NoTerminator(title, 0, e) by {
      forall k | 0 <= k < e ensures !IsLineTerminator(title[k]) {
        assert title[k] == subject[k];
      }
    }
    assert MatchFrom(title, 0).Some?;
  }

  /** A run of `n` hex digits followed by a non-hex character has length exactly `n`. */
  lemma {:induction false} HexRunOf(s: string, i: nat, n: nat)
    requires i + n < |s|
    requires forall k :: i <= k < i + n ==> IsLowerHex(s[k])
    requires !IsLowerHex(s[i + n])
    ensures HexRun(s, i) == n
    decreases n
  {
    if n > 0 {
      HexRunOf(s, i + 1, n - 1);
    }
  }

  // ---------------------------------------------------------------------------
  // The matchers and `noteLink`
  // ---------------------------------------------------------------------------

  /** `githubMatcher`: an issue URL gives `#<number>` and the title up to its first ` ·` (or all of it). */
  function GitHubMatch(tab: Tab): (r: Option<Match>)
    ensures r.None? <==> NumberAfter(tab.url, GitHubIssuePattern).None?
    ensures r.Some? ==> r.value.link == "#" + NumberAfter(tab.url, GitHubIssuePattern).value
    ensures r.Some? && Index(tab.title, " \U{00B7}") < 0 ==> r.value.description == tab.title
    ensures r.Some? && Index(tab.title, " \U{00B7}") >= 0 ==>
              HasPrefix(tab.title, r.value.description) && OccursAt(tab.title, " \U{00B7}", |r.value.description|)
              && forall j :: 0 <= j < |r.value.description| ==> !OccursAt(tab.title, " \U{00B7}", j)
  {
    match NumberAfter(tab.url, GitHubIssuePattern)
    case None => None
    case Some(n) =>
      var i := Index(tab.title, " \U{00B7}");
      Some(Match("#" + n, if i < 0 then tab.title else tab.title[..i]))
  }

  /** `gerritMatcher`: a Go CL URL gives `CL <number>` and the subject captured from the title, or "". */
  function GerritMatch(tab: Tab): (r: Option<Match>)
    ensures r.None? <==> NumberAfter(tab.url, GerritChangePattern).None?
    ensures r.Some? ==> r.value == Match("CL " + NumberAfter(tab.url, GerritChangePattern).value, GerritSubject(tab.title))
  {
    match NumberAfter(tab.url, GerritChangePattern)
    case None => None
    case Some(n) => Some(Match("CL " + n, GerritSubject(tab.title)))
  }

  function Apply(m: Matcher, tab: Tab): Option<Match> {
    match m
    case GitHubMatcher => GitHubMatch(tab)
    case GerritMatcher => GerritMatch(tab)
  }

  /** The result of the first matcher in `ms` that matches. */
  function FirstMatch(ms: seq<Matcher>, tab: Tab): (r: Option<Match>)
    ensures r.None? <==> forall k :: 0 <= k < |ms| ==> Apply(ms[k], tab).None?
    ensures r.Some? ==> exists k :: 0 <= k < |ms| && Apply(ms[k], tab) == r && forall j :: 0 <= j < k ==> Apply(ms[j], tab).None?
    decreases |ms|
  {
    if |ms| == 0 then None
    else if Apply(ms[0], tab).Some? then Apply(ms[0], tab)
    else
      var r := FirstMatch(ms[1..], tab);
      assert forall k :: 1 <= k < |ms| ==> ms[k] == ms[1..][k - 1];
      if r.Some? then
        var k :| 0 <= k < |ms[1..]| && Apply(ms[1..][k], tab) == r && forall j :: 0 <= j < k ==> Apply(ms[1..][j], tab).None?;
        assert Apply(ms[k + 1], tab) == r;
        assert forall j :: 0 <= j < k + 1 ==> Apply(ms[j], tab).None?;
        r
      else r
  }

  /** With the matchers in their order, the GitHub matcher wins, then the Gerrit one. */
  lemma FirstMatchOrder(tab: Tab)
    ensures FirstMatch(Matchers, tab) == if GitHubMatch(tab).Some? then GitHubMatch(tab) else GerritMatch(tab)
  {
    assert Matchers[0] == GitHubMatcher && Matchers[1] == GerritMatcher;
    if GitHubMatch(tab).None? && GerritMatch(tab).Some? {
      assert Matchers[1..][0] == GerritMatcher;
    }
  }

  /**
    The choice in `noteLink`: the first matcher that matches decides the
    link and description; with none, the link is the title and there is no
    description.
   */
  method ChooseLink(tab: Tab) returns (link: string, description: string)
    ensures FirstMatch(Matchers, tab).Some? ==>
              link == FirstMatch(Matchers, tab).value.link && description == FirstMatch(Matchers, tab).value.description
    ensures FirstMatch(Matchers, tab).None? ==> link == tab.title && description == ""
  {
    link := tab.title;
    description := "";
    for i := 0 to |Matchers|
      invariant forall k :: 0 <= k < i ==> Apply(Matchers[k], tab).None?
      invariant link == tab.title && description == ""
    {
      var m := Apply(Matchers[i], tab);
      if m.Some? {
        assert FirstMatch(Matchers, tab) == m by {
          var r := FirstMatch(Matchers, tab);
          var k :| 0 <= k < |Matchers| && Apply(Matchers[k], tab) == r && forall j :: 0 <= j < k ==> Apply(Matchers[j], tab).None?;
          assert k == i;
        }
        link := m.value.link;
        description := m.value.description;
        return;
      }
    }
  }

  /** The copied text: the link, then ` - ` and the description only when the description is not empty. */
  function CopiedText(link: string, description: string): (r: string)
    ensures description == "" ==> r == link
    ensures description != "" ==> r == link + " - " + description
  {
    if description != "" then link + " - " + description else link
  }

  /** `noteLink` without the DOM and clipboard: the text it copies. */
  method NoteLink(tab: Tab) returns (text: string)
    ensures GitHubMatch(tab).None? && GerritMatch(tab).None? ==> text == tab.title
    ensures GitHubMatch(tab).Some? ==> text == CopiedText(GitHubMatch(tab).value.link, GitHubMatch(tab).value.description)
    ensures GitHubMatch(tab).None? && GerritMatch(tab).Some? ==>
              text == CopiedText(GerritMatch(tab).value.link, GerritMatch(tab).value.description)
  {
    var link, description := ChooseLink(tab);
    FirstMatchOrder(tab);
    text := link;
    if description != "" {
      text := text + (" - " + description);
    }
    assert text == CopiedText(link, description);
  }
}
