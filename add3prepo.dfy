/**
  The manifest update of `add-3p-repo`: the Starlark file
  `third_party/manifest.bzl` must begin with `manifest = { ... }`; the
  dictionary gains (or has replaced) one entry for the repository, mapping
  each vendored build file's generated label to its relative path, and the
  entries are then sorted by key.

  The Starlark syntax tree is modelled by the few node kinds the update
  inspects; every other node is `OtherExpr`.
 */
module AddThirdPartyRepo {
  import opened Wrappers
  import opened GoStrings

  /** The Starlark expressions the update distinguishes. */
  datatype Expr =
    | StringExpr(value: string)
    | LiteralExpr(token: string)
    | DictExpr(list: seq<Entry>)
    | BinaryExpr(x: Expr, op: string, y: Expr)
    | OtherExpr

  /** A `key: value` element of a dictionary. */
  datatype Entry = KeyValue(key: Expr, value: Expr)

  /** What reading `third_party/manifest.bzl` gave: no file, a file that does not parse, or its statements. */
  datatype ManifestSource = Unreadable | Unparsable(error: string) | Parsed(stmts: seq<Expr>)

  const ManifestPath := "third_party/manifest.bzl"

  /** An error about the manifest file, prefixed by its path. */
  function ManifestError(reason: string): (r: string)
    ensures HasPrefix(r, ManifestPath + ": ")
  {
    var p := ManifestPath + ": ";
    assert (p + reason)[..|p|] == p;
    p + reason
  }

  /** `manifest = <dict>` */
  function ManifestAssignment(list: seq<Entry>): Expr {
    BinaryExpr(LiteralExpr("manifest"), "=", DictExpr(list))
  }

  /** A statement of the form `manifest = { ... }`. */
  predicate IsManifestAssignment(stmt: Expr) {
    stmt.BinaryExpr? && stmt.op == "=" && stmt.x == LiteralExpr("manifest") && stmt.y.DictExpr?
  }

  /**
    The statements to edit. A missing file starts as `manifest = {}`; a
    file that parses must have as its first statement an assignment of a
    dictionary to `manifest`, and each way of failing that has its own
    message.
   */
  function LoadManifest(src: ManifestSource): (r: Result<seq<Expr>, string>)
    ensures src.Unreadable? ==> r == Success([ManifestAssignment([])])
    ensures src.Unparsable? ==> r == Failure(src.error)
    ensures src.Parsed? && r.Success? ==> r.value == src.stmts
    ensures r.Success? <==> !src.Unparsable? && (src.Parsed? ==> |src.stmts| > 0 && IsManifestAssignment(src.stmts[0]))
    ensures r.Success? ==> |r.value| > 0 && IsManifestAssignment(r.value[0])
    ensures r.Failure? && !src.Unparsable? ==> HasPrefix(r.error, ManifestPath + ": ")
  {
    match src
    case Unreadable => Success([ManifestAssignment([])])
    case Unparsable(e) => Failure(e)
    case Parsed(stmts) =>
      if |stmts| == 0 then Failure(ManifestError("manifest is empty"))
      else
        var stmt := stmts[0];
        if !stmt.BinaryExpr? || stmt.op != "=" then Failure(ManifestError("first statement is not assignment"))
        else if stmt.x != LiteralExpr("manifest") then Failure(ManifestError("first statement is not assignment to manifest"))
        else if !stmt.y.DictExpr? then Failure(ManifestError("first statement is not dict assignment"))
        else Success(stmts)
  }

  /** The label under which a vendored build file is listed: `@<workspace>//third_party:<repo>/<rel>.in`. */
  function EntryKey(workspace: string, repo: string, rel: string): string {
    "@" + workspace + "//third_party:" + repo + "/" + rel + ".in"
  }

  /** The length of the text `EntryKey` puts before the relative path. */
  function EntryKeyPrefixLength(workspace: string, repo: string): nat {
    |"@" + workspace + "//third_party:" + repo + "/"|
  }

  /** The relative path can be read back from the label, so different paths get different labels. */
  lemma EntryKeyInverse(workspace: string, repo: string, rel: string)
    ensures var key := EntryKey(workspace, repo, rel);
            var n := EntryKeyPrefixLength(workspace, repo);
            |key| == n + |rel| + 3 && key[n..|key| - 3] == rel && HasSuffix(key, ".in")
  {
    var key := EntryKey(workspace, repo, rel);
    var p := "@" + workspace + "//third_party:" + repo + "/";
    assert key == p + rel + ".in";
    assert key[|p|..|key| - 3] == rel;
  }

  /** The entry for one build file: its label mapped to its relative path. */
  function BuildEntry(workspace: string, repo: string, rel: string): Entry {
    KeyValue(StringExpr(EntryKey(workspace, repo, rel)), StringExpr(rel))
  }

  /**
    One entry per build path, in input order. `relSlash(p)` stands for
    `filepath.ToSlash` of `filepath.Rel(repoDir, p)`, whose error is
    ignored by the source.
   */
  method BuildEntries(workspace: string, repo: string, buildPaths: seq<string>, relSlash: string -> string)
    returns (entries: seq<Entry>)
    ensures |entries| == |buildPaths|
    ensures forall i :: 0 <= i < |buildPaths| ==> entries[i] == BuildEntry(workspace, repo, relSlash(buildPaths[i]))
  {
    entries := [];
    for i := 0 to |buildPaths|
      invariant |entries| == i
      invariant forall k :: 0 <= k < i ==> entries[k] == BuildEntry(workspace, repo, relSlash(buildPaths[k]))
    {
      var value := relSlash(buildPaths[i]);
      entries := entries + [BuildEntry(workspace, repo, value)];
    }
  }

  /** The entry is keyed by the string `repo`. */
  predicate HasStringKey(e: Entry, repo: string) {
    e.key == StringExpr(repo)
  }

  /** The index of the first entry keyed by the string `repo`, or -1. */
  function FindKey(list: seq<Entry>, repo: string): (r: int)
    ensures -1 <= r < |list|
    ensures r == -1 <==> forall i :: 0 <= i < |list| ==> !HasStringKey(list[i], repo)
    ensures r >= 0 ==> HasStringKey(list[r], repo) && forall i :: 0 <= i < r ==> !HasStringKey(list[i], repo)
    decreases |list|
  {
    if |list| == 0 then -1
    else if HasStringKey(list[0], repo) then 0
    else
      var k := FindKey(list[1..], repo);
      assert forall i :: 1 <= i < |list| ==> list[i] == list[1..][i - 1];
      if k == -1 then -1 else k + 1
  }

  /** The dictionary after the upsert: the first entry keyed `repo` replaced, or `entry` appended. */
  function Upserted(list: seq<Entry>, repo: string, entry: Entry): seq<Entry> {
    var i := FindKey(list, repo);
    if i >= 0 then list[i := entry] else list + [entry]
  }

  /** The length stays on a replace and grows by one on an append; every other entry is kept in its place and `entry` is present. */
  lemma UpsertedShape(list: seq<Entry>, repo: string, entry: Entry)
    ensures var r := Upserted(list, repo, entry);
            var i := FindKey(list, repo);
            && |r| == |list| + (if i >= 0 then 0 else 1)
            && (forall k :: 0 <= k < |list| && k != i ==> r[k] == list[k])
            && (i >= 0 ==> r[i] == entry)
            && (i < 0 ==> r[|list|] == entry)
            && entry in r
  {
  }

  /** Upserting the same entry twice is the same as once, when the entry is keyed by `repo`. */
  lemma {:induction false} UpsertedIdempotent(list: seq<Entry>, repo: string, entry: Entry)
    requires HasStringKey(entry, repo)
    ensures Upserted(Upserted(list, repo, entry), repo, entry) == Upserted(list, repo, entry)
  {
    var r := Upserted(list, repo, entry);
    var i := FindKey(list, repo);
    if i >= 0 {
      assert forall k :: 0 <= k < i ==> r[k] == list[k];
      var m := FindKey(r, repo);
      assert HasStringKey(r[i], repo);
      assert m >= 0;
      assert m == i;
      assert r[i := entry] == r;
    } else {
      assert forall k :: 0 <= k < |list| ==> r[k] == list[k];
      var m := FindKey(r, repo);
      assert HasStringKey(r[|list|], repo);
      assert m >= 0;
      assert m == |list|;
      assert r[|list| := entry] == r;
    }
  }

  /** `stringKey`: the entry's key when it is a string, and "" otherwise. */
  function KeyOf(e: Entry): string {
    if e.key.StringExpr? then e.key.value else ""
  }

  /** `e` may come before `f` in a list sorted by key. */
  predicate KeyLe(e: Entry, f: Entry) {
    !LexLess(KeyOf(f), KeyOf(e))
  }

  predicate SortedByKey(s: seq<Entry>) {
    forall a, b :: 0 <= a < b < |s| ==> KeyLe(s[a], s[b])
  }

  /** The first `n` entries are in key order. */
  predicate SortedPrefix(s: seq<Entry>, n: nat)
    requires n <= |s|
  {
    forall a, b :: 0 <= a < b < n ==> KeyLe(s[a], s[b])
  }

  /** `s` with the entries at `j - 1` and `j` exchanged. */
  function Swap(s: seq<Entry>, j: nat): (t: seq<Entry>)
    requires 0 < j < |s|
    ensures |t| == |s| && t[j - 1] == s[j] && t[j] == s[j - 1]
    ensures forall k :: 0 <= k < |s| && k != j - 1 && k != j ==> t[k] == s[k]
  {
    s[j - 1 := s[j]][j := s[j - 1]]
  }

  lemma SwapPermutes(s: seq<Entry>, j: nat)
    requires 0 < j < |s|
    ensures multiset(Swap(s, j)) == multiset(s)
  {
  }

  /**
    While `s[j]` is being moved down into the sorted `s[..i]`: the other
    entries up to `i` are in order, and `s[j]` is not after any entry above it.
   */
  predicate Inserting(s: seq<Entry>, i: nat, j: nat)
    requires j <= i < |s|
  {
    && (forall a, b :: 0 <= a < b <= i && a != j && b != j ==> KeyLe(s[a], s[b]))
    && (forall b :: j < b <= i ==> KeyLe(s[j], s[b]))
  }

  /** Swapping `s[j]` below an entry with a larger key keeps the insertion going. */
  lemma SwapStep(s: seq<Entry>, i: nat, j: nat)
    requires 0 < j <= i < |s| && Inserting(s, i, j)
    requires LexLess(KeyOf(s[j]), KeyOf(s[j - 1]))
    ensures Inserting(Swap(s, j), i, j - 1)
  {
    LexLessTotal(KeyOf(s[j]), KeyOf(s[j - 1]));
  }

  /** Once `s[j]` is not before its lower neighbour, the prefix up to `i` is sorted. */
  lemma InsertDone(s: seq<Entry>, i: nat, j: nat)
    requires j <= i < |s| && Inserting(s, i, j)
    requires j > 0 ==> KeyLe(s[j - 1], s[j])
    ensures SortedPrefix(s, i + 1)
  {
    forall a, b | 0 <= a < b <= i ensures KeyLe(s[a], s[b]) {
      if b == j && a < j - 1 {
        LexLeTransitive(KeyOf(s[a]), KeyOf(s[j - 1]), KeyOf(s[j]));
      }
    }
  }

  /** One insertion-sort step: `s[i]` is swapped down into the sorted prefix `s[..i]`. */
  method InsertIntoPrefix(s0: seq<Entry>, i: nat) returns (s: seq<Entry>)
    requires i < |s0| && SortedPrefix(s0, i)
    ensures |s| == |s0| && multiset(s) == multiset(s0)
    ensures SortedPrefix(s, i + 1)
  {
    s := s0;
    var j := i;
    while j > 0 && LexLess(KeyOf(s[j]), KeyOf(s[j - 1]))
      invariant 0 <= j <= i < |s| == |s0|
      invariant multiset(s) == multiset(s0)
      invariant Inserting(s, i, j)
    {
      SwapStep(s, i, j);
      SwapPermutes(s, j);
      s := Swap(s, j);
      j := j - 1;
    }
    InsertDone(s, i, j);
  }

  /** The `manifest` dictionary's entry list, which the update edits in place. */
  class ManifestDict {
    var list: seq<Entry>

    constructor (list: seq<Entry>)
      ensures this.list == list
    {
      this.list := list;
    }

    /**
      The first entry whose key is the string `repo` becomes `entry`;
      entries with other kinds of key are passed over. With no such entry,
      `entry` is appended.
     */
    method Upsert(repo: string, entry: Entry) returns (replaced: bool)
      modifies this
      ensures replaced <==> FindKey(old(list), repo) >= 0
      ensures list == Upserted(old(list), repo, entry)
    {
      replaced := false;
      var i := 0;
      while i < |list|
        invariant 0 <= i <= |list|
        invariant forall k :: 0 <= k < i ==> !HasStringKey(list[k], repo)
      {
        var key := list[i].key;
        if !key.StringExpr? {
          i := i + 1;
          continue;
        }
        if key.value == repo {
          list := list[i := entry];
          replaced := true;
          break;
        }
        i := i + 1;
      }
      if !replaced {
        list := list + [entry];
      }
    }

    /** `sort.Slice` by `stringKey`: the entries end up ordered by key, as a permutation of the old ones. */
    method SortByKey()
      modifies this
      ensures SortedByKey(list)
      ensures multiset(list) == multiset(old(list))
    {
      var s := list;
      var i := 0;
      while i < |s|
        invariant 0 <= i <= |s| == |old(list)|
        invariant multiset(s) == multiset(old(list))
        invariant SortedPrefix(s, i)
      {
        s := InsertIntoPrefix(s, i);
        i := i + 1;
      }
      list := s;
    }
  }

  /**
    `updateManifest` without the final formatting and write: the new
    statements of the manifest file. The repository's entry maps `repo` to
    the dictionary of its build entries; the first statement's dictionary
    has that entry upserted and is then sorted by key, and every other
    statement is kept.
   */
  method UpdateManifest(workspace: string, repo: string, buildPaths: seq<string>, relSlash: string -> string, src: ManifestSource)
    returns (r: Result<seq<Expr>, string>)
    ensures LoadManifest(src).Failure? ==> r == Failure(LoadManifest(src).error)
    ensures LoadManifest(src).Success? ==>
              var stmts := LoadManifest(src).value;
              var entries := seq(|buildPaths|, i requires 0 <= i < |buildPaths| => BuildEntry(workspace, repo, relSlash(buildPaths[i])));
              var repoEntry := KeyValue(StringExpr(repo), DictExpr(entries));
              && r.Success?
              && |r.value| == |stmts|
              && r.value[1..] == stmts[1..]
              && IsManifestAssignment(r.value[0])
              && SortedByKey(r.value[0].y.list)
              && multiset(r.value[0].y.list) == multiset(Upserted(stmts[0].y.list, repo, repoEntry))
  {
    var loaded := LoadManifest(src);
    if loaded.Failure? {
      return Failure(loaded.error);
    }
    var stmts := loaded.value;
    var entries := BuildEntries(workspace, repo, buildPaths, relSlash);
    assert entries == seq(|buildPaths|, i requires 0 <= i < |buildPaths| => BuildEntry(workspace, repo, relSlash(buildPaths[i])));
    var repoEntry := KeyValue(StringExpr(repo), DictExpr(entries));
    var dict := new ManifestDict(stmts[0].y.list);
    var _ := dict.Upsert(repo, repoEntry);
    dict.SortByKey();
    r := Success(stmts[0 := ManifestAssignment(dict.list)]);
  }

  /** After the update the repository's entry is in the manifest exactly as built, and the dictionary did not shrink. */
  lemma UpdatedManifestHasRepo(list: seq<Entry>, sorted: seq<Entry>, repo: string, repoEntry: Entry)
    requires multiset(sorted) == multiset(Upserted(list, repo, repoEntry))
    ensures repoEntry in sorted
    ensures |list| <= |sorted| <= |list| + 1
  {
    UpsertedShape(list, repo, repoEntry);
    var u := Upserted(list, repo, repoEntry);
    assert repoEntry in multiset(u);
    assert |sorted| == |multiset(sorted)| == |multiset(u)| == |u|;
  }
}
