/**
  `format-releases`: prints the Bazel `rules_go` table entries for the
  archive downloads of the requested Go releases, one line per archive:
  `        "<os>_<arch>":` padded to column 29, then the quoted file name and
  SHA-256.

  The release list (fetched from golang.org or read from a file, then
  decoded from JSON) is the parameter `fetched`, and Go's `%q` quoting is
  the parameter `quote`.
 */
module FormatReleases {
  import opened Wrappers
  import opened GoStrings

  /** One downloadable file of a release. */
  datatype Download = Download(filename: string, os: string, arch: string, sha256: string, kind: string)

  /** A Go release and its files. */
  datatype Version = Version(version: string, stable: bool, files: seq<Download>)

  /** The architecture name printed: `armv6l` becomes `arm`, every other name is kept. */
  function PrintedArch(arch: string): (r: string)
    ensures arch == "armv6l" ==> r == "arm"
    ensures arch != "armv6l" ==> r == arch
  {
    if arch == "armv6l" then "arm" else arch
  }

  /** `n` spaces. */
  function Spaces(n: nat): (r: string)
    ensures |r| == n && forall i :: 0 <= i < n ==> r[i] == ' '
  {
    seq(n, _ => ' ')
  }

  /** The first `Printf`: eight spaces and the quoted key `"<os>_<arch>":`. */
  function KeyText(d: Download): (r: string)
    ensures |r| == 12 + |d.os| + |PrintedArch(d.arch)|
    ensures HasPrefix(r, Spaces(8) + "\"" + d.os + "_")
    ensures HasSuffix(r, PrintedArch(d.arch) + "\":")
  {
    var r := "        \"" + d.os + "_" + PrintedArch(d.arch) + "\":";
    var head := Spaces(8) + "\"" + d.os + "_";
    assert "        \"" + d.os + "_" == head;
    assert r[..|head|] == head;
    r
  }

  /**
    The padding the second `Printf` writes: `%*s` of "" with width
    29 - n, where n is the number of bytes the first one wrote. A negative
    width pads on the right by its magnitude, so the count is |29 - n|.
   */
  function Padding(n: nat): (r: string)
    ensures n <= 29 ==> |r| == 29 - n
    ensures n > 29 ==> |r| == n - 29
    ensures forall i :: 0 <= i < |r| ==> r[i] == ' '
  {
    if n <= 29 then Spaces(29 - n) else Spaces(n - 29)
  }

  /** The line printed for one archive. */
  function Line(d: Download, quote: string -> string): string {
    var key := KeyText(d);
    key + Padding(|key|) + "(" + quote(d.filename) + ", " + quote(d.sha256) + "),\n"
  }

  /** A line starts with the key, reaches column 29 before the tuple when the key is shorter, and ends with the quoted pair. */
  lemma LineShape(d: Download, quote: string -> string)
    ensures var line := Line(d, quote);
            var key := KeyText(d);
            var tail := "(" + quote(d.filename) + ", " + quote(d.sha256) + "),\n";
            && HasPrefix(line, key)
            && HasSuffix(line, tail)
            && (|key| <= 29 ==> |line| == 29 + |tail| && HasPrefix(line, key + Spaces(29 - |key|)))
  {
    var line := Line(d, quote);
    var key := KeyText(d);
    var pad := Padding(|key|);
    var tail := "(" + quote(d.filename) + ", " + quote(d.sha256) + "),\n";
    assert line == key + pad + tail;
    assert line[..|key|] == key;
    assert line[|line| - |tail|..] == tail;
    if |key| <= 29 {
      assert pad == Spaces(29 - |key|);
      assert line[..|key + pad|] == key + pad;
    }
  }

  /** The lines for one release's files: archives only, in file order. */
  function FileLines(files: seq<Download>, quote: string -> string): seq<string>
    decreases |files|
  {
    if |files| == 0 then []
    else
      var d := files[|files| - 1];
      FileLines(files[..|files| - 1], quote) + (if d.kind == "archive" then [Line(d, quote)] else [])
  }

  /** The lines for the releases whose version is one of `tags`, in release order. */
  function ReleaseLines(versions: seq<Version>, tags: seq<string>, quote: string -> string): seq<string>
    decreases |versions|
  {
    if |versions| == 0 then []
    else
      var v := versions[|versions| - 1];
      ReleaseLines(versions[..|versions| - 1], tags, quote) + (if v.version in tags then FileLines(v.files, quote) else [])
  }

  /** The text of a list of lines. */
  function Concat(lines: seq<string>): string
    decreases |lines|
  {
    if |lines| == 0 then "" else Concat(lines[..|lines| - 1]) + lines[|lines| - 1]
  }

  lemma {:induction false} ConcatAppend(a: seq<string>, b: seq<string>)
    ensures Concat(a + b) == Concat(a) + Concat(b)
    decreases |b|
  {
    if |b| == 0 {
      assert a + b == a;
    } else {
      assert (a + b)[..|a + b| - 1] == a + b[..|b| - 1];
      ConcatAppend(a, b[..|b| - 1]);
    }
  }

  /** The number of archives among `files`. */
  function Archives(files: seq<Download>): nat
    decreases |files|
  {
    if |files| == 0 then 0 else Archives(files[..|files| - 1]) + (if files[|files| - 1].kind == "archive" then 1 else 0)
  }

  /** One line per archive, and every line is the line of some archive of the release. */
  lemma {:induction false} FileLinesArchivesOnly(files: seq<Download>, quote: string -> string)
    ensures |FileLines(files, quote)| == Archives(files)
    ensures forall l | l in FileLines(files, quote) :: exists d :: d in files && d.kind == "archive" && l == Line(d, quote)
    decreases |files|
  {
    if |files| > 0 {
      var init := files[..|files| - 1];
      FileLinesArchivesOnly(init, quote);
      forall l | l in FileLines(files, quote) ensures exists d :: d in files && d.kind == "archive" && l == Line(d, quote) {
        if l in FileLines(init, quote) {
          var d :| d in init && d.kind == "archive" && l == Line(d, quote);
          assert d in files;
        } else {
          assert files[|files| - 1] in files;
        }
      }
    }
  }

  /** Release order is kept: the lines of a concatenation are those of each part, one after the other. */
  lemma {:induction false} ReleaseLinesAppend(a: seq<Version>, b: seq<Version>, tags: seq<string>, quote: string -> string)
    ensures ReleaseLines(a + b, tags, quote) == ReleaseLines(a, tags, quote) + ReleaseLines(b, tags, quote)
    decreases |b|
  {
    if |b| == 0 {
      assert a + b == a;
    } else {
      assert (a + b)[..|a + b| - 1] == a + b[..|b| - 1];
      assert (a + b)[|a + b| - 1] == b[|b| - 1];
      ReleaseLinesAppend(a, b[..|b| - 1], tags, quote);
    }
  }

  /** Only which versions are requested matters, not the order or repetition of the tags. */
  lemma {:induction false} ReleaseLinesTagOrder(versions: seq<Version>, tags1: seq<string>, tags2: seq<string>, quote: string -> string)
    requires forall t :: t in tags1 <==> t in tags2
    ensures ReleaseLines(versions, tags1, quote) == ReleaseLines(versions, tags2, quote)
    decreases |versions|
  {
    if |versions| > 0 {
      ReleaseLinesTagOrder(versions[..|versions| - 1], tags1, tags2, quote);
    }
  }

  /** A release that is not requested contributes nothing. */
  lemma ReleaseLinesSkip(versions: seq<Version>, v: Version, tags: seq<string>, quote: string -> string)
    requires v.version !in tags
    ensures ReleaseLines(versions + [v], tags, quote) == ReleaseLines(versions, tags, quote)
  {
    assert (versions + [v])[..|versions|] == versions;
  }

  /**
    The nested loops of `run`: for each release, a scan of the tags sets
    `versionFound`; a found release prints one line per archive file.
   */
  method PrintReleases(versions: seq<Version>, tags: seq<string>, quote: string -> string) returns (out: string)
    ensures out == Concat(ReleaseLines(versions, tags, quote))
  {
    out := "";
    for i := 0 to |versions|
      invariant out == Concat(ReleaseLines(versions[..i], tags, quote))
    {
      var v := versions[i];
      assert versions[..i + 1][..i] == versions[..i] && versions[..i + 1][i] == v;
      var versionFound := false;
      for j := 0 to |tags|
        invariant versionFound == (v.version in tags[..j])
      {
        if v.version == tags[j] {
          assert tags[j] in tags[..j + 1];
          versionFound := true;
          break;
        }
        assert tags[..j + 1] == tags[..j] + [tags[j]];
      }
      assert versionFound == (v.version in tags) by {
        if !versionFound {
          assert tags[..|tags|] == tags;
        }
      }
      if !versionFound {
        ReleaseLinesSkip(versions[..i], v, tags, quote);
        assert versions[..i + 1] == versions[..i] + [v];
        continue;
      }
      assert ReleaseLines(versions[..i + 1], tags, quote) == ReleaseLines(versions[..i], tags, quote) + FileLines(v.files, quote);
      var text := PrintFiles(v.files, quote);
      ConcatAppend(ReleaseLines(versions[..i], tags, quote), FileLines(v.files, quote));
      out := out + text;
    }
    assert versions[..|versions|] == versions;
  }

  /** The loop over one release's files: archives only, with `armv6l` printed as `arm`. */
  method PrintFiles(files: seq<Download>, quote: string -> string) returns (out: string)
    ensures out == Concat(FileLines(files, quote))
  {
    out := "";
    for i := 0 to |files|
      invariant out == Concat(FileLines(files[..i], quote))
    {
      var d := files[i];
      assert files[..i + 1][..i] == files[..i] && files[..i + 1][i] == d;
      if d.kind != "archive" {
        assert files[..i + 1] == files[..i] + [d];
        assert FileLines(files[..i], quote) + [] == FileLines(files[..i], quote);
        continue;
      }
      var arch := d.arch;
      if arch == "armv6l" {
        arch := "arm";
      }
      var key := "        \"" + d.os + "_" + arch + "\":";
      var n := |key|;
      var line := key + Padding(n) + "(" + quote(d.filename) + ", " + quote(d.sha256) + "),\n";
      assert line == Line(d, quote);
      assert FileLines(files[..i + 1], quote) == FileLines(files[..i], quote) + [line];
      ConcatAppend(FileLines(files[..i], quote), [line]);
      assert Concat([line]) == line by {
        assert [line][..0] == [];
      }
      out := out + line;
    }
    assert files[..|files|] == files;
  }

  /**
    `run` after flag parsing: no tags is an error before anything is
    fetched; a failed fetch or decode is returned as is; otherwise the
    printed text.
   */
  method Run(tags: seq<string>, fetched: Result<seq<Version>, string>, quote: string -> string) returns (r: Result<string, string>)
    ensures |tags| == 0 ==> r == Failure("no versions specified")
    ensures |tags| > 0 && fetched.Failure? ==> r == Failure(fetched.error)
    ensures |tags| > 0 && fetched.Success? ==> r == Success(Concat(ReleaseLines(fetched.value, tags, quote)))
  {
    if |tags| == 0 {
      return Failure("no versions specified");
    }
    if fetched.Failure? {
      return Failure(fetched.error);
    }
    var out := PrintReleases(fetched.value, tags, quote);
    return Success(out);
  }
}
