/**
  `snippet`: a weekly status snippet in Markdown, listing the author's
  recent Gerrit changes and GitHub pull requests under five project
  headings.

  The fetched changes are the parameters of `Run`; the fetching itself
  (and the sort applied to the Gerrit changes after fetching) is not part
  of this model, so the Gerrit changes are taken in the order given.
 */
module Snippet {
  import opened Wrappers
  import opened GoStrings

  /** The fields of a Gerrit change that the snippet reads. */
  datatype GerritChange = GerritChange(project: string, branch: string, status: string, subject: string, number: int)

  /** The fields of a GitHub pull request that the snippet reads. */
  datatype PullRequest = PullRequest(number: int, title: string)

  /** One line of the snippet, before formatting. */
  datatype Change = Change(addr: string, link: string, status: string, desc: string)

  /** A heading and the changes listed under it. */
  datatype ProjectChanges = ProjectChanges(title: string, changes: seq<Change>)

  const CmdGoIndex := 0
  const FuzzingIndex := 1
  const DocumentationIndex := 2
  const RulesGoIndex := 3
  const GazelleIndex := 4

  /** The headings, in output order. */
  const Titles: seq<string> := ["cmd/go", "Fuzzing", "Documentation", "rules_go", "gazelle"]

  /** Abandoned changes and changes on release branches are not listed. */
  predicate Listed(cl: GerritChange) {
    !(cl.status == "ABANDONED" || Contains(cl.branch, "release-branch"))
  }

  /** The heading a Gerrit change goes under: fuzzing work first, then the website, then everything else under cmd/go. */
  function ProjectIndex(cl: GerritChange): (k: nat)
    ensures k in {CmdGoIndex, FuzzingIndex, DocumentationIndex}
    ensures k == FuzzingIndex <==> Contains(cl.subject, "[dev.fuzz]")
    ensures k == DocumentationIndex <==> !Contains(cl.subject, "[dev.fuzz]") && cl.project == "website"
  {
    if Contains(cl.subject, "[dev.fuzz]") then FuzzingIndex
    else if cl.project == "website" then DocumentationIndex
    else CmdGoIndex
  }

  /** The status shown for a Gerrit change: only new and draft changes are marked. */
  function StatusText(status: string): (r: string)
    ensures r != "" <==> status == "NEW" || status == "DRAFT"
    ensures status == "NEW" ==> r == "pending"
    ensures status == "DRAFT" ==> r == "draft"
  {
    if status == "NEW" then "pending"
    else if status == "DRAFT" then "draft"
    else ""
  }

  /** A Gerrit change's line: its review address, its number as the link, its status and its subject. */
  function GerritEntry(cl: GerritChange): (c: Change)
    ensures c.link == DecimalString(cl.number)
    ensures HasSuffix(c.addr, "/+/" + c.link)
    ensures HasPrefix(c.addr, "https://go-review.googlesource.com/c/" + cl.project)
    ensures |c.addr| == |"https://go-review.googlesource.com/c/" + cl.project| + |"/+/" + c.link|
    ensures c.desc == cl.subject && c.status == StatusText(cl.status)
  {
    var link := DecimalString(cl.number);
    var project := "https://go-review.googlesource.com/c/" + cl.project;
    var addr := project + ("/+/" + link);
    assert addr[..|project|] == project;
    assert addr[|addr| - |"/+/" + link|..] == "/+/" + link;
    Change(addr, link, StatusText(cl.status), cl.subject)
  }

  /** A pull request's line: its address in `org/repo`, `#<number>` as the link, no status and its title. */
  function GitHubEntry(org: string, repo: string, pr: PullRequest): (c: Change)
    ensures c.link == "#" + DecimalString(pr.number)
    ensures HasSuffix(c.addr, "/pull/" + c.link[1..])
    ensures HasPrefix(c.addr, "https://github.com/" + org + "/" + repo)
    ensures |c.addr| == |"https://github.com/" + org + "/" + repo| + |"/pull/" + c.link[1..]|
    ensures c.status == "" && c.desc == pr.title
  {
    var n := DecimalString(pr.number);
    var base := "https://github.com/" + org + "/" + repo;
    var addr := base + ("/pull/" + n);
    assert ("#" + n)[1..] == n;
    assert addr[..|base|] == base;
    assert addr[|addr| - |"/pull/" + n|..] == "/pull/" + n;
    Change(addr, "#" + n, "", pr.title)
  }

  /** The lines for the Gerrit changes that go under heading `k`, in input order. */
  function GerritChanges(cls: seq<GerritChange>, k: nat): seq<Change>
    decreases |cls|
  {
    if |cls| == 0 then []
    else
      var last := cls[|cls| - 1];
      GerritChanges(cls[..|cls| - 1], k) + (if Listed(last) && ProjectIndex(last) == k then [GerritEntry(last)] else [])
  }

  /** The lines for the pull requests of `org/repo`, in input order. */
  function GitHubChanges(org: string, repo: string, prs: seq<PullRequest>): (r: seq<Change>)
    ensures |r| == |prs|
    ensures forall i :: 0 <= i < |prs| ==> r[i] == GitHubEntry(org, repo, prs[i])
  {
    seq(|prs|, i requires 0 <= i < |prs| => GitHubEntry(org, repo, prs[i]))
  }

  /** Selection keeps input order: the changes of a concatenation are those of each part, one after the other. */
  lemma {:induction false} GerritChangesAppend(a: seq<GerritChange>, b: seq<GerritChange>, k: nat)
    ensures GerritChanges(a + b, k) == GerritChanges(a, k) + GerritChanges(b, k)
    decreases |b|
  {
    if |b| == 0 {
      assert a + b == a;
    } else {
      var b' := b[..|b| - 1];
      assert (a + b)[..|a + b| - 1] == a + b';
      assert (a + b)[|a + b| - 1] == b[|b| - 1];
      GerritChangesAppend(a, b', k);
    }
  }

  /** A listed change is under exactly its own heading, and an unlisted one is under none. */
  lemma {:induction false} GerritChangesSingle(cl: GerritChange, k: nat)
    ensures GerritChanges([cl], k) == if Listed(cl) && ProjectIndex(cl) == k then [GerritEntry(cl)] else []
  {
    assert [cl][..0] == [];
  }

  /** Every line under heading `k` comes from a listed change that belongs there. */
  lemma {:induction false} GerritChangesSound(cls: seq<GerritChange>, k: nat, c: Change)
    requires c in GerritChanges(cls, k)
    ensures exists cl :: cl in cls && Listed(cl) && ProjectIndex(cl) == k && c == GerritEntry(cl)
    decreases |cls|
  {
    var last := cls[|cls| - 1];
    var init := cls[..|cls| - 1];
    if c in GerritChanges(init, k) {
      GerritChangesSound(init, k, c);
      var cl :| cl in init && Listed(cl) && ProjectIndex(cl) == k && c == GerritEntry(cl);
      assert cl in cls;
    } else {
      assert last in cls;
    }
  }

  /** Every listed change appears under its own heading. */
  lemma {:induction false} GerritChangesComplete(cls: seq<GerritChange>, i: nat)
    requires i < |cls| && Listed(cls[i])
    ensures GerritEntry(cls[i]) in GerritChanges(cls, ProjectIndex(cls[i]))
  {
    var cl := cls[i];
    var k := ProjectIndex(cl);
    assert cls == cls[..i] + [cl] + cls[i + 1..];
    GerritChangesAppend(cls[..i] + [cl], cls[i + 1..], k);
    GerritChangesAppend(cls[..i], [cl], k);
    GerritChangesSingle(cl, k);
  }

  /** The headings with their changes, in output order. */
  function Projects(cls: seq<GerritChange>, rulesGoPRs: seq<PullRequest>, gazellePRs: seq<PullRequest>): (r: seq<ProjectChanges>)
    ensures |r| == |Titles|
    ensures forall k :: 0 <= k < |r| ==> r[k].title == Titles[k]
  {
    [ ProjectChanges("cmd/go", GerritChanges(cls, CmdGoIndex)),
      ProjectChanges("Fuzzing", GerritChanges(cls, FuzzingIndex)),
      ProjectChanges("Documentation", GerritChanges(cls, DocumentationIndex)),
      ProjectChanges("rules_go", GitHubChanges("bazelbuild", "rules_go", rulesGoPRs)),
      ProjectChanges("gazelle", GitHubChanges("bazelbuild", "bazel-gazelle", gazellePRs)) ]
  }

  /** Appends `c` to the changes under heading `k`. */
  function AddChange(projects: seq<ProjectChanges>, k: nat, c: Change): (r: seq<ProjectChanges>)
    requires k < |projects|
    ensures |r| == |projects|
    ensures r[k] == projects[k].(changes := projects[k].changes + [c])
    ensures forall j :: 0 <= j < |projects| && j != k ==> r[j] == projects[j]
  {
    projects[k := projects[k].(changes := projects[k].changes + [c])]
  }

  /** The loop over the Gerrit changes: each listed change is appended to its heading. */
  method OrganizeGerrit(cls: seq<GerritChange>) returns (projects: seq<ProjectChanges>)
    ensures |projects| == |Titles|
    ensures forall k :: 0 <= k < 3 ==> projects[k] == ProjectChanges(Titles[k], GerritChanges(cls, k))
    ensures projects[RulesGoIndex] == ProjectChanges("rules_go", [])
    ensures projects[GazelleIndex] == ProjectChanges("gazelle", [])
  {
    projects := seq(|Titles|, k requires 0 <= k < |Titles| => ProjectChanges(Titles[k], []));
    for i := 0 to |cls|
      invariant |projects| == |Titles|
      invariant forall k :: 0 <= k < 3 ==> projects[k] == ProjectChanges(Titles[k], GerritChanges(cls[..i], k))
      invariant projects[RulesGoIndex] == ProjectChanges("rules_go", [])
      invariant projects[GazelleIndex] == ProjectChanges("gazelle", [])
    {
      var cl := cls[i];
      assert cls[..i + 1][..i] == cls[..i];
      if cl.status == "ABANDONED" || Contains(cl.branch, "release-branch") {
        continue;
      }
      projects := AddChange(projects, ProjectIndex(cl), GerritEntry(cl));
    }
    assert cls[..|cls|] == cls;
  }

  /** The loop over one repository's pull requests: each is appended to heading `l`. */
  method AppendPullRequests(projects: seq<ProjectChanges>, l: nat, org: string, repo: string, prs: seq<PullRequest>)
    returns (r: seq<ProjectChanges>)
    requires l < |projects|
    ensures r == projects[l := projects[l].(changes := projects[l].changes + GitHubChanges(org, repo, prs))]
  {
    r := projects;
    assert GitHubChanges(org, repo, prs[..0]) == [];
    assert projects[l].changes + [] == projects[l].changes;
    assert projects[l := projects[l]] == projects;
    for i := 0 to |prs|
      invariant r == projects[l := projects[l].(changes := projects[l].changes + GitHubChanges(org, repo, prs[..i]))]
    {
      var pr := prs[i];
      var before := projects[l].changes + GitHubChanges(org, repo, prs[..i]);
      assert GitHubChanges(org, repo, prs[..i + 1]) == GitHubChanges(org, repo, prs[..i]) + [GitHubEntry(org, repo, pr)];
      assert before + [GitHubEntry(org, repo, pr)] == projects[l].changes + GitHubChanges(org, repo, prs[..i + 1]);
      r := AddChange(r, l, GitHubEntry(org, repo, pr));
    }
    assert prs[..|prs|] == prs;
  }

  /**
    The organising loops: the Gerrit changes, then the pull requests of
    rules_go and of bazel-gazelle (the source's loop over these two
    repositories is written out); the result is `Projects`.
   */
  method Organize(cls: seq<GerritChange>, rulesGoPRs: seq<PullRequest>, gazellePRs: seq<PullRequest>)
    returns (projects: seq<ProjectChanges>)
    ensures projects == Projects(cls, rulesGoPRs, gazellePRs)
  {
    projects := OrganizeGerrit(cls);
    projects := AppendPullRequests(projects, RulesGoIndex, "bazelbuild", "rules_go", rulesGoPRs);
    projects := AppendPullRequests(projects, GazelleIndex, "bazelbuild", "bazel-gazelle", gazellePRs);
    assert [] + GitHubChanges("bazelbuild", "rules_go", rulesGoPRs) == GitHubChanges("bazelbuild", "rules_go", rulesGoPRs);
    assert [] + GitHubChanges("bazelbuild", "bazel-gazelle", gazellePRs) == GitHubChanges("bazelbuild", "bazel-gazelle", gazellePRs);
    assert forall k :: 0 <= k < |Titles| ==> projects[k] == Projects(cls, rulesGoPRs, gazellePRs)[k];
  }

  /** ` (status)` when there is a status, nothing otherwise. */
  function StatusSuffix(status: string): (r: string)
    ensures r == "" <==> status == ""
  {
    if status == "" then "" else " (" + status + ")"
  }

  /** `* [link](addr) (status) - desc` and a newline. */
  function ChangeLine(c: Change): string {
    "* [" + c.link + "](" + c.addr + ")" + StatusSuffix(c.status) + " - " + c.desc + "\n"
  }

  function ChangeLines(cs: seq<Change>): string
    decreases |cs|
  {
    if |cs| == 0 then "" else ChangeLines(cs[..|cs| - 1]) + ChangeLine(cs[|cs| - 1])
  }

  /** A heading, a blank line, the change lines and a blank line. */
  function ProjectText(p: ProjectChanges): string {
    "## " + p.title + "\n\n" + ChangeLines(p.changes) + "\n"
  }

  function SnippetText(projects: seq<ProjectChanges>): string
    decreases |projects|
  {
    if |projects| == 0 then "" else SnippetText(projects[..|projects| - 1]) + ProjectText(projects[|projects| - 1])
  }

  /** Printing one more change after a prefix adds that change's line. */
  lemma ChangeLinesStep(prefix: string, cs: seq<Change>, i: int)
    requires 0 <= i < |cs|
    ensures prefix + ChangeLines(cs[..i + 1]) == (prefix + ChangeLines(cs[..i])) + ChangeLine(cs[i])
  {
    assert cs[..i + 1][..i] == cs[..i];
  }

  /** The inner formatting loop: what it prints for one heading is `ProjectText`. */
  method FormatProject(project: ProjectChanges) returns (text: string)
    ensures text == ProjectText(project)
  {
    var header := "## " + project.title + "\n\n";
    text := header;
    for i := 0 to |project.changes|
      invariant text == header + ChangeLines(project.changes[..i])
    {
      ChangeLinesStep(header, project.changes, i);
      text := text + ChangeLine(project.changes[i]);
    }
    assert project.changes[..|project.changes|] == project.changes;
    text := text + "\n";
  }

  /** The formatting loops: what they print is `SnippetText`. */
  method Format(projects: seq<ProjectChanges>) returns (out: string)
    ensures out == SnippetText(projects)
  {
    out := "";
    for p := 0 to |projects|
      invariant out == SnippetText(projects[..p])
    {
      assert projects[..p + 1][..p] == projects[..p];
      var text := FormatProject(projects[p]);
      out := out + text;
    }
    assert projects[..|projects|] == projects;
  }

  /** The number of newlines in `s`. */
  function Newlines(s: string): nat {
    multiset(s)['\n']
  }

  /** A string without a newline. */
  predicate OneLineText(s: string) {
    forall i :: 0 <= i < |s| ==> s[i] != '\n'
  }

  lemma NoNewlines(s: string)
    requires OneLineText(s)
    ensures Newlines(s) == 0
  {
    assert '\n' !in s;
  }

  /** A change whose fields have no newline. */
  predicate OneLine(c: Change) {
    OneLineText(c.addr) && OneLineText(c.link) && OneLineText(c.status) && OneLineText(c.desc)
  }

  function TotalChanges(projects: seq<ProjectChanges>): nat
    decreases |projects|
  {
    if |projects| == 0 then 0 else TotalChanges(projects[..|projects| - 1]) + |projects[|projects| - 1].changes|
  }

  /** A change whose fields have no newline takes exactly one line. */
  lemma ChangeLineIsOneLine(c: Change)
    requires OneLine(c)
    ensures Newlines(ChangeLine(c)) == 1
  {
    NoNewlines(c.addr);
    NoNewlines(c.link);
    NoNewlines(c.status);
    NoNewlines(c.desc);
    assert Newlines(StatusSuffix(c.status)) == 0;
  }

  lemma {:induction false} ChangeLinesCount(cs: seq<Change>)
    requires forall i :: 0 <= i < |cs| ==> OneLine(cs[i])
    ensures Newlines(ChangeLines(cs)) == |cs|
    decreases |cs|
  {
    if |cs| > 0 {
      ChangeLinesCount(cs[..|cs| - 1]);
      ChangeLineIsOneLine(cs[|cs| - 1]);
    }
  }

  /**
    With one-line titles and fields, the snippet has three lines per
    heading (the heading, the blank line after it, the closing blank line)
    plus one per change.
   */
  lemma {:induction false} SnippetLineCount(projects: seq<ProjectChanges>)
    requires forall k :: 0 <= k < |projects| ==> OneLineText(projects[k].title)
    requires forall k, j :: 0 <= k < |projects| && 0 <= j < |projects[k].changes| ==> OneLine(projects[k].changes[j])
    ensures Newlines(SnippetText(projects)) == 3 * |projects| + TotalChanges(projects)
    decreases |projects|
  {
    if |projects| > 0 {
      var init := projects[..|projects| - 1];
      var p := projects[|projects| - 1];
      SnippetLineCount(init);
      ChangeLinesCount(p.changes);
      NoNewlines(p.title);
    }
  }

  /**
    `run` after fetching: the first fetch error in the order Gerrit,
    rules_go, gazelle, or the snippet.
   */
  method Run(gerrit: Result<seq<GerritChange>, string>, rulesGo: Result<seq<PullRequest>, string>,
             gazelle: Result<seq<PullRequest>, string>)
    returns (r: Result<string, string>)
    ensures gerrit.Failure? ==> r == Failure(gerrit.error)
    ensures gerrit.Success? && rulesGo.Failure? ==> r == Failure(rulesGo.error)
    ensures gerrit.Success? && rulesGo.Success? && gazelle.Failure? ==> r == Failure(gazelle.error)
    ensures gerrit.Success? && rulesGo.Success? && gazelle.Success? ==>
              r == Success(SnippetText(Projects(gerrit.value, rulesGo.value, gazelle.value)))
  {
    if gerrit.Failure? {
      return Failure(gerrit.error);
    }
    if rulesGo.Failure? {
      return Failure(rulesGo.error);
    }
    if gazelle.Failure? {
      return Failure(gazelle.error);
    }
    var projects := Organize(gerrit.value, rulesGo.value, gazelle.value);
    var out := Format(projects);
    return Success(out);
  }
}
