/**
  A Go module proxy (the GOPROXY protocol) that serves modules out of a
  directory of txtar archives, one archive per module version.

  Calls into libraries the model cannot see are handled as follows:
  - `semver.Canonical` is the parameter `canonical` of every member that needs it;
  - `module.UnescapePath` and `module.UnescapeVersion` are `Unescape`, the
    case decoding of golang.org/x/mod/module (`!` + lower-case letter stands
    for an upper-case letter), without that package's path validation;
  - the directory, its listing and the parsed archives are the value `Store`;
  - a zip archive is the list of its entries.
 */
module TxtarModServe {
  import opened Wrappers
  import opened GoStrings
  import opened Txtar

  // ---------------------------------------------------------------------------
  // Data model
  // ---------------------------------------------------------------------------

  /**
    What the server finds on disk for one existing file name: its
    modification time (all `os.Stat` reports that is used) and the outcome
    of `txtar.ParseFile`, which is the archive, or the text of the error
    reading the file gave (a directory, a file without read permission).
    Parsing itself never fails.
   */
  datatype StoredFile = StoredFile(modTime: string, archive: Result<Archive, string>)

  /**
    The directory the server reads. `listing` is what `Readdirnames` returns
    (`None` when the directory cannot be opened or read); `files` maps each
    path that exists to its content.
   */
  datatype Store = Store(dir: string, listing: Option<seq<string>>, files: map<string, StoredFile>)

  /** One entry written to the zip archive. */
  datatype ZipEntry = ZipEntry(name: string, data: string)

  /** A parsed request: module path, version ("" for `@latest` and `@v/list`) and operation. */
  datatype Request = Request(modPath: string, version: string, ext: string)

  /** The cause of a `parsePath` failure, one per `return` of an error in the source. */
  datatype ParseCause =
    | NoLeadingSlash
    | NoVersionMarker
    | NoExtension
    | BadVersionEscape(escaped: string)
    | EmptyVersion
    | NotCanonical(version: string)
    | BadPathEscape(escaped: string)
    | InvalidExtension(ext: string)

  /** Every `parsePath` failure, wrapped with the path that was parsed. */
  datatype ParseError = ParseError(path: string, cause: ParseCause)

  /** Failures of the operation handlers. */
  datatype HandlerError =
    | DirUnreadable(dir: string)
    | NoSuchFile(op: string, path: string)
    | ReadFailed(text: string)

  /** A response body: text, or a zip archive given by its entries. */
  datatype Body = Text(text: string) | ZipBody(entries: seq<ZipEntry>)

  /** What `ServeHTTP` writes: the status, the Content-Type header if any, and the body. */
  datatype Response = Response(status: int, contentType: Option<string>, body: Body)

  const LatestSuffix: string := "/@latest"
  const ListSuffix: string := "/@v/list"
  const VersionMarker: string := "/@v/"
  const ArchiveSuffix: string := ".txt"

  /** The operations `parsePath` accepts. */
  const Extensions: set<string> := {"info", "latest", "list", "mod", "zip"}

  // ---------------------------------------------------------------------------
  // Error text
  // ---------------------------------------------------------------------------

  function CauseText(c: ParseCause): string {
    match c
    case NoLeadingSlash => "does not start with '/'"
    case NoVersionMarker => "does not contain '@'"
    case NoExtension => "does not have extension"
    case BadVersionEscape(e) => "invalid escaped version " + GoQuote(e)
    case EmptyVersion => "version is empty"
    case NotCanonical(v) => "version " + GoQuote(v) + " is not canonical"
    case BadPathEscape(e) => "invalid escaped module path " + GoQuote(e)
    case InvalidExtension(ext) => "invalid extension " + GoQuote(ext)
  }

  /** The text of a `parsePath` error: the cause, wrapped by the deferred `fmt.Errorf`. */
  function ParseErrorText(e: ParseError): (t: string)
    ensures HasPrefix(t, "parsing path " + e.path + ": ")
  {
    "parsing path " + e.path + ": " + CauseText(e.cause)
  }

  /** The text of a handler error, as Go's `*os.PathError` prints a missing file. */
  function HandlerErrorText(e: HandlerError): string {
    match e
    case DirUnreadable(dir) => "open " + dir + ": no such file or directory"
    case NoSuchFile(op, path) => op + " " + path + ": no such file or directory"
    case ReadFailed(text) => text
  }

  /** `http.StatusText` for the codes the server writes. */
  function StatusText(code: int): string {
    if code == 200 then "OK"
    else if code == 400 then "Bad Request"
    else if code == 404 then "Not Found"
    else ""
  }

  // ---------------------------------------------------------------------------
  // Case encoding of module paths and versions
  // ---------------------------------------------------------------------------

  predicate IsUpper(c: char) { 'A' <= c <= 'Z' }
  predicate IsLower(c: char) { 'a' <= c <= 'z' }
  function ToUpper(c: char): char requires IsLower(c) { (c as int - 32) as char }
  function ToLower(c: char): char requires IsUpper(c) { (c as int + 32) as char }

  /** A string the encoding can represent: ASCII and free of `!`. */
  predicate Escapable(s: string) {
    forall i :: 0 <= i < |s| ==> s[i] != '!' && (s[i] as int) < 0x80
  }

  function Prepend(c: char, o: Option<string>): Option<string> {
    match o
    case None => None
    case Some(s) => Some([c] + s)
  }

  /** The escaped form: every upper-case letter becomes `!` and its lower-case letter. */
  function Escape(s: string): (e: string)
    ensures forall i :: 0 <= i < |e| ==> !IsUpper(e[i])
    ensures ('@' in s) <==> ('@' in e)
  {
    if s == [] then []
    else (if IsUpper(s[0]) then ['!', ToLower(s[0])] else [s[0]]) + Escape(s[1..])
  }

  /**
    The decoding that `module.UnescapePath` and `module.UnescapeVersion` start
    with: fails on a non-ASCII byte, on an upper-case letter, and on a `!`
    that is not followed by a lower-case letter.
   */
  function Unescape(e: string): Option<string>
  {
    if e == [] then Some([])
    else if (e[0] as int) >= 0x80 then None
    else if e[0] == '!' then
      if |e| >= 2 && IsLower(e[1]) then Prepend(ToUpper(e[1]), Unescape(e[2..])) else None
    else if IsUpper(e[0]) then None
    else Prepend(e[0], Unescape(e[1..]))
  }

  /** Decoding undoes encoding on every string the encoding can represent. */
  lemma {:induction false} UnescapeEscape(s: string)
    requires Escapable(s)
    ensures Unescape(Escape(s)) == Some(s)
  {
    if s != [] {
      UnescapeEscape(s[1..]);
      var tail := Escape(s[1..]);
      if IsUpper(s[0]) {
        assert Escape(s) == ['!', ToLower(s[0])] + tail;
        assert (['!', ToLower(s[0])] + tail)[2..] == tail;
      } else {
        assert Escape(s) == [s[0]] + tail;
        assert ([s[0]] + tail)[1..] == tail;
      }
      assert [s[0]] + s[1..] == s;
    }
  }

  /** Encoding undoes decoding: the escaped form of a string is unique. */
  lemma {:induction false} EscapeUnescape(e: string, s: string)
    requires Unescape(e) == Some(s)
    ensures Escape(s) == e && Escapable(s)
  {
    if e != [] {
      if e[0] == '!' {
        var t :| Unescape(e[2..]) == Some(t) && s == [ToUpper(e[1])] + t;
        EscapeUnescape(e[2..], t);
        assert s[1..] == t;
        assert ToLower(ToUpper(e[1])) == e[1];
        assert e == ['!', e[1]] + e[2..];
      } else {
        var t :| Unescape(e[1..]) == Some(t) && s == [e[0]] + t;
        EscapeUnescape(e[1..], t);
        assert s[1..] == t;
        assert e == [e[0]] + e[1..];
      }
    }
  }

  // ---------------------------------------------------------------------------
  // parsePath
  // ---------------------------------------------------------------------------

  /** The pieces of a request path after the leading `/`, before any module path decoding. */
  datatype Split = Split(escapedPath: string, version: string, ext: string)

  /** The suffix tests of `parsePath`: `@latest`, then `@v/list`, then a version-bearing path. */
  function SplitRest(rest: string, canonical: string -> string): Result<Split, ParseCause>
  {
    if HasSuffix(rest, LatestSuffix) then
      Success(Split(rest[..|rest| - |LatestSuffix|], "", "latest"))
    else if HasSuffix(rest, ListSuffix) then
      Success(Split(rest[..|rest| - |ListSuffix|], "", "list"))
    else
      SplitVersioned(rest, canonical)
  }

  /** `<module>/@v/<version>.<ext>`: the first marker ends the module path, the last dot the version. */
  function SplitVersioned(rest: string, canonical: string -> string): Result<Split, ParseCause>
  {
    var at := Index(rest, VersionMarker);
    if at < 0 then Failure(NoVersionMarker)
    else
      var tail := rest[at + |VersionMarker|..];
      var dot := LastIndex(tail, ".");
      if dot < 0 then Failure(NoExtension)
      else
        match CheckVersion(tail[..dot], canonical)
        case Failure(cause) => Failure(cause)
        case Success(version) => Success(Split(rest[..at], version, tail[dot + 1..]))
  }

  /** The version checks: it must decode, be non-empty and be its own canonical form. */
  function CheckVersion(escaped: string, canonical: string -> string): Result<string, ParseCause>
  {
    match Unescape(escaped)
    case None => Failure(BadVersionEscape(escaped))
    case Some(version) =>
      if version == "" then Failure(EmptyVersion)
      else if canonical(version) != version then Failure(NotCanonical(version))
      else Success(version)
  }

  /** `parsePath`: a request path to (module path, version, operation), or the wrapped error. */
  function ParsePath(path: string, canonical: string -> string): (r: Result<Request, ParseError>)
    ensures r.Failure? ==> r.error.path == path
    ensures r == Failure(ParseError(path, NoLeadingSlash)) <==> !HasPrefix(path, "/")
    ensures r.Success? ==> r.value.ext in Extensions
    ensures r.Success? && r.value.version != "" ==> canonical(r.value.version) == r.value.version
    ensures r.Success? && r.value.version == "" ==> r.value.ext == "latest" || r.value.ext == "list"
  {
    if !HasPrefix(path, "/") then Failure(ParseError(path, NoLeadingSlash))
    else
      match SplitRest(path[1..], canonical)
      case Failure(cause) => Failure(ParseError(path, cause))
      case Success(split) =>
        match Unescape(split.escapedPath)
        case None => Failure(ParseError(path, BadPathEscape(split.escapedPath)))
        case Some(modPath) =>
          if split.ext in Extensions then Success(Request(modPath, split.version, split.ext))
          else Failure(ParseError(path, InvalidExtension(split.ext)))
  }

  /**
    The rejection rules of a version-bearing path, in the order they are
    tried: no `/@v/`, then no `.` after it, then the version checks, then
    the module path decoding, then an unknown operation.
   */
  lemma ParsePathRejections(path: string, canonical: string -> string)
    requires HasPrefix(path, "/")
    requires !HasSuffix(path[1..], LatestSuffix) && !HasSuffix(path[1..], ListSuffix)
    ensures var rest := path[1..];
            var at := Index(rest, VersionMarker);
            var r := ParsePath(path, canonical);
            && (at < 0 ==> r == Failure(ParseError(path, NoVersionMarker)))
            && (at >= 0 ==>
                  var tail := rest[at + |VersionMarker|..];
                  var dot := LastIndex(tail, ".");
                  && (dot < 0 ==> r == Failure(ParseError(path, NoExtension)))
                  && (dot >= 0 && CheckVersion(tail[..dot], canonical).Failure? ==>
                        r == Failure(ParseError(path, CheckVersion(tail[..dot], canonical).error)))
                  && (dot >= 0 && CheckVersion(tail[..dot], canonical).Success? && Unescape(rest[..at]).None? ==>
                        r == Failure(ParseError(path, BadPathEscape(rest[..at]))))
                  && (dot >= 0 && CheckVersion(tail[..dot], canonical).Success? && Unescape(rest[..at]).Some? ==>
                        (r.Success? <==> tail[dot + 1..] in Extensions)
                        && (tail[dot + 1..] !in Extensions ==> r == Failure(ParseError(path, InvalidExtension(tail[dot + 1..]))))))
  {
  }

  /**
    The request path a client sends for `req`: `@latest`, `@v/list`, or
    `@v/<version>.<ext>`, with module path and version escaped.
   */
  function RequestPath(req: Request): string {
    "/" + RequestRest(req)
  }

  /** The request path after its leading `/`. */
  function RequestRest(req: Request): string {
    if req.version == "" && req.ext == "latest" then Escape(req.modPath) + LatestSuffix
    else if req.version == "" && req.ext == "list" then Escape(req.modPath) + ListSuffix
    else Escape(req.modPath) + VersionMarker + Escape(req.version) + "." + req.ext
  }

  /** The requests a client can send and the server accepts. */
  predicate WellFormed(req: Request, canonical: string -> string) {
    && Escapable(req.modPath)
    && '@' !in req.modPath
    && req.ext in Extensions
    && (req.version == "" ==> req.ext == "latest" || req.ext == "list")
    && (req.version != "" ==> Escapable(req.version) && canonical(req.version) == req.version)
  }

  /** A string that ends in "." + ext cannot also end in a suffix without a "." that is longer than ext. */
  lemma DotSuffixExcludes(s: string, pre: string, ext: string, suffix: string)
    requires s == pre + "." + ext
    requires |ext| < |suffix| && '.' !in suffix
    ensures !HasSuffix(s, suffix)
  {
    assert s[|s| - |ext| - 1] == '.';
  }

  /** In `e + VersionMarker + t`, the first version marker is the one after `e` when `e` has no `@`. */
  lemma FirstMarker(e: string, t: string)
    requires '@' !in e
    ensures Index(e + VersionMarker + t, VersionMarker) == |e|
  {
    var s := e + VersionMarker + t;
    assert s[|e|..|e| + 4] == VersionMarker;
    assert OccursAt(s, VersionMarker, |e|);
    forall j | 0 <= j < |e| ensures !OccursAt(s, VersionMarker, j) {
      if j + 1 < |e| {
        assert s[j + 1] == e[j + 1];
      } else {
        assert s[j + 1] == '/';
      }
    }
  }

  /** In `v + "." + ext`, the last dot is the one after `v` when `ext` has no dot. */
  lemma LastDot(v: string, ext: string)
    requires '.' !in ext
    ensures LastIndex(v + "." + ext, ".") == |v|
  {
    var s := v + "." + ext;
    assert s[|v|..|v| + 1] == ".";
    assert OccursAt(s, ".", |v|);
    forall j | |v| < j ensures !OccursAt(s, ".", j) {
      if j < |s| {
        assert s[j] == ext[j - |v| - 1];
      }
    }
  }

  /** How `SplitRest` takes apart the rest of a version-bearing path. */
  lemma SplitOfVersionPath(e: string, ev: string, ext: string, canonical: string -> string)
    requires '@' !in e && '.' !in ext && |ext| <= 6
    ensures var rest := e + VersionMarker + ev + "." + ext;
            SplitRest(rest, canonical)
              == match CheckVersion(ev, canonical)
                 case Failure(cause) => Failure(cause)
                 case Success(version) => Success(Split(e, version, ext))
  {
    var t := ev + "." + ext;
    var rest := e + VersionMarker + ev + "." + ext;
    assert rest == e + VersionMarker + t;
    DotSuffixExcludes(rest, e + VersionMarker + ev, ext, LatestSuffix);
    DotSuffixExcludes(rest, e + VersionMarker + ev, ext, ListSuffix);
    FirstMarker(e, t);
    assert rest[|e| + 4..] == t;
    assert rest[..|e|] == e;
    LastDot(ev, ext);
    assert t[..|ev|] == ev;
    assert t[|ev| + 1..] == ext;
  }

  /** What `SplitRest` does with a path ending in `/@latest` or `/@v/list`. */
  lemma SplitSuffixed(e: string, canonical: string -> string)
    ensures SplitRest(e + LatestSuffix, canonical) == Success(Split(e, "", "latest"))
    ensures SplitRest(e + ListSuffix, canonical) == Success(Split(e, "", "list"))
  {
    var r1 := e + LatestSuffix;
    assert r1[|r1| - 8..] == LatestSuffix;
    assert r1[..|r1| - 8] == e;
    var r2 := e + ListSuffix;
    assert r2[|r2| - 8..] == ListSuffix;
    assert r2[|r2| - 8..] != LatestSuffix;
    assert r2[..|r2| - 8] == e;
  }

  /** `ParsePath` accepts a path whose rest splits into a decodable module path and a known operation. */
  lemma ParseAfterSplit(rest: string, m: string, canonical: string -> string)
    requires SplitRest(rest, canonical).Success?
    requires Unescape(SplitRest(rest, canonical).value.escapedPath) == Some(m)
    requires SplitRest(rest, canonical).value.ext in Extensions
    ensures var split := SplitRest(rest, canonical).value;
            ParsePath("/" + rest, canonical) == Success(Request(m, split.version, split.ext))
  {
    assert ("/" + rest)[..1] == "/";
    assert ("/" + rest)[1..] == rest;
  }

  /** The `@latest` path of a module is parsed back to it. */
  lemma RoundTripLatest(m: string, canonical: string -> string)
    requires Escapable(m)
    ensures ParsePath("/" + (Escape(m) + LatestSuffix), canonical) == Success(Request(m, "", "latest"))
  {
    var e := Escape(m);
    UnescapeEscape(m);
    SplitSuffixed(e, canonical);
    ParseAfterSplit(e + LatestSuffix, m, canonical);
  }

  /** The `@v/list` path of a module is parsed back to it. */
  lemma RoundTripList(m: string, canonical: string -> string)
    requires Escapable(m)
    ensures ParsePath("/" + (Escape(m) + ListSuffix), canonical) == Success(Request(m, "", "list"))
  {
    var e := Escape(m);
    UnescapeEscape(m);
    SplitSuffixed(e, canonical);
    ParseAfterSplit(e + ListSuffix, m, canonical);
  }

  /** A version-bearing path is parsed back to its module, version and operation. */
  lemma RoundTripVersioned(m: string, v: string, ext: string, canonical: string -> string)
    requires Escapable(m) && '@' !in m && Escapable(v) && v != "" && canonical(v) == v
    requires ext in Extensions
    ensures ParsePath("/" + (Escape(m) + VersionMarker + Escape(v) + "." + ext), canonical) == Success(Request(m, v, ext))
  {
    var e := Escape(m);
    UnescapeEscape(m);
    var ev := Escape(v);
    UnescapeEscape(v);
    var rest := e + VersionMarker + ev + "." + ext;
    assert |ext| <= 6 && '.' !in ext;
    SplitOfVersionPath(e, ev, ext, canonical);
    assert CheckVersion(ev, canonical) == Success(v);
    ParseAfterSplit(rest, m, canonical);
  }

  /** Every request a client can form is parsed back to itself. */
  lemma ParsePathRoundTrip(req: Request, canonical: string -> string)
    requires WellFormed(req, canonical)
    ensures ParsePath(RequestPath(req), canonical) == Success(req)
  {
    if req.version == "" && req.ext == "latest" {
      RoundTripLatest(req.modPath, canonical);
    } else if req.version == "" && req.ext == "list" {
      RoundTripList(req.modPath, canonical);
    } else {
      RoundTripVersioned(req.modPath, req.version, req.ext, canonical);
    }
  }

  /** A path ending in `/@latest` is split just before that suffix. */
  lemma SplitRestInverseLatest(rest: string, canonical: string -> string)
    requires HasSuffix(rest, LatestSuffix)
    ensures var split := SplitRest(rest, canonical).value;
            split.version == "" && split.ext == "latest" && rest == split.escapedPath + LatestSuffix
  {
    assert rest == rest[..|rest| - 8] + rest[|rest| - 8..];
  }

  /** Any other path ending in `/@v/list` is split just before that suffix. */
  lemma SplitRestInverseList(rest: string, canonical: string -> string)
    requires !HasSuffix(rest, LatestSuffix) && HasSuffix(rest, ListSuffix)
    ensures var split := SplitRest(rest, canonical).value;
            split.version == "" && split.ext == "list" && rest == split.escapedPath + ListSuffix
  {
    assert rest == rest[..|rest| - 8] + rest[|rest| - 8..];
  }

  /** A version-bearing path is the escaped module path, the marker, the escaped version, a dot and the extension. */
  lemma SplitRestInverseVersioned(rest: string, canonical: string -> string)
    requires SplitRest(rest, canonical).Success?
    requires !HasSuffix(rest, LatestSuffix) && !HasSuffix(rest, ListSuffix)
    ensures var split := SplitRest(rest, canonical).value;
            split.version != ""
            && rest == split.escapedPath + VersionMarker + Escape(split.version) + "." + split.ext
  {
    assert SplitRest(rest, canonical) == SplitVersioned(rest, canonical);
    SplitVersionedInverse(rest, canonical);
  }

  lemma SplitVersionedInverse(rest: string, canonical: string -> string)
    requires SplitVersioned(rest, canonical).Success?
    ensures var split := SplitVersioned(rest, canonical).value;
            split.version != ""
            && rest == split.escapedPath + VersionMarker + Escape(split.version) + "." + split.ext
  {
    var at := Index(rest, VersionMarker);
    assert at >= 0;
    var tail := rest[at + |VersionMarker|..];
    var dot := LastIndex(tail, ".");
    assert dot >= 0;
    var escaped := tail[..dot];
    assert CheckVersion(escaped, canonical).Success?;
    var version := CheckVersion(escaped, canonical).value;
    assert SplitVersioned(rest, canonical).value == Split(rest[..at], version, tail[dot + 1..]);
    assert Unescape(escaped) == Some(version);
    EscapeUnescape(escaped, version);
    SplitRestJoin(rest, at, tail, dot);
  }

  lemma SplitRestJoin(rest: string, at: int, tail: string, dot: int)
    requires OccursAt(rest, VersionMarker, at)
    requires tail == rest[at + |VersionMarker|..]
    requires OccursAt(tail, ".", dot)
    ensures rest == rest[..at] + VersionMarker + tail[..dot] + "." + tail[dot + 1..]
  {
    assert tail[dot..dot + 1] == ".";
    assert tail == tail[..dot] + "." + tail[dot + 1..];
    assert rest == rest[..at] + VersionMarker + tail;
  }

  /** What a successful parse is made of: a split of the rest and a decoded module path. */
  lemma ParsePathParts(path: string, canonical: string -> string)
    requires ParsePath(path, canonical).Success?
    ensures HasPrefix(path, "/") && SplitRest(path[1..], canonical).Success?
    ensures var split := SplitRest(path[1..], canonical).value;
            var req := ParsePath(path, canonical).value;
            Unescape(split.escapedPath) == Some(req.modPath)
            && req.version == split.version && req.ext == split.ext
  {
  }

  /** An accepted path ending in `/@latest`. */
  lemma InverseLatest(path: string, canonical: string -> string)
    requires ParsePath(path, canonical).Success?
    requires HasSuffix(path[1..], LatestSuffix)
    ensures var req := ParsePath(path, canonical).value;
            req.version == "" && req.ext == "latest" && path[1..] == Escape(req.modPath) + LatestSuffix
  {
    ParsePathParts(path, canonical);
    var rest := path[1..];
    var split := SplitRest(rest, canonical).value;
    var req := ParsePath(path, canonical).value;
    EscapeUnescape(split.escapedPath, req.modPath);
    SplitRestInverseLatest(rest, canonical);
  }

  /** An accepted path ending in `/@v/list`. */
  lemma InverseList(path: string, canonical: string -> string)
    requires ParsePath(path, canonical).Success?
    requires !HasSuffix(path[1..], LatestSuffix) && HasSuffix(path[1..], ListSuffix)
    ensures var req := ParsePath(path, canonical).value;
            req.version == "" && req.ext == "list" && path[1..] == Escape(req.modPath) + ListSuffix
  {
    ParsePathParts(path, canonical);
    var rest := path[1..];
    var split := SplitRest(rest, canonical).value;
    var req := ParsePath(path, canonical).value;
    EscapeUnescape(split.escapedPath, req.modPath);
    SplitRestInverseList(rest, canonical);
  }

  /** An accepted version-bearing path. */
  lemma InverseVersioned(path: string, canonical: string -> string)
    requires ParsePath(path, canonical).Success?
    requires !HasSuffix(path[1..], LatestSuffix) && !HasSuffix(path[1..], ListSuffix)
    ensures var req := ParsePath(path, canonical).value;
            req.version != ""
            && path[1..] == Escape(req.modPath) + VersionMarker + Escape(req.version) + "." + req.ext
  {
    ParsePathParts(path, canonical);
    var rest := path[1..];
    var split := SplitRest(rest, canonical).value;
    var req := ParsePath(path, canonical).value;
    EscapeUnescape(split.escapedPath, req.modPath);
    SplitRestInverseVersioned(rest, canonical);
  }

  /** Every accepted path is the one a client forms for the parsed request. */
  lemma ParsePathInverse(path: string, canonical: string -> string)
    requires ParsePath(path, canonical).Success?
    ensures path == RequestPath(ParsePath(path, canonical).value)
  {
    ParsePathParts(path, canonical);
    assert path == "/" + path[1..];
    if HasSuffix(path[1..], LatestSuffix) {
      InverseLatest(path, canonical);
    } else if HasSuffix(path[1..], ListSuffix) {
      InverseList(path, canonical);
    } else {
      InverseVersioned(path, canonical);
    }
  }

  // ---------------------------------------------------------------------------
  // The store's naming convention: fileName and list
  // ---------------------------------------------------------------------------

  /** The archive name prefix of a module: its slashes turned into `_`, then `_`. */
  function ModulePrefix(modPath: string): (p: string)
    ensures |p| > 0 && p[|p| - 1] == '_'
  {
    ReplaceChar(modPath, '/', '_') + "_"
  }

  /** The base name of the archive for one module version. */
  function ArchiveName(modPath: string, version: string): string {
    ModulePrefix(modPath) + version + ArchiveSuffix
  }

  /** `filepath.Join(dir, name)` for a clean `dir`. */
  function Join(dir: string, name: string): string {
    if dir == "" || dir == "." then name
    else if HasSuffix(dir, "/") then dir + name
    else dir + "/" + name
  }

  /** `fileName`: where the archive of a module version lives. */
  function FileName(dir: string, modPath: string, version: string): (r: string)
    ensures HasSuffix(r, ArchiveName(modPath, version))
  {
    Join(dir, ArchiveName(modPath, version))
  }

  /** A name that starts with a prefix ending in `_` and ends in `.txt` is long enough for both. */
  lemma PrefixSuffixDisjoint(name: string, prefix: string)
    requires |prefix| > 0 && prefix[|prefix| - 1] == '_'
    requires HasPrefix(name, prefix) && HasSuffix(name, ArchiveSuffix)
    ensures |prefix| <= |name| - |ArchiveSuffix|
  {
    assert name[|prefix| - 1] == '_';
  }

  /** The version one directory entry contributes to the listing of a module, if any. */
  function Candidate(name: string, modPath: string, canonical: string -> string): Option<string>
  {
    var prefix := ModulePrefix(modPath);
    if !HasPrefix(name, prefix) || !HasSuffix(name, ArchiveSuffix) then None
    else
      PrefixSuffixDisjoint(name, prefix);
      var v := name[|prefix|..|name| - |ArchiveSuffix|];
      if v == "" || canonical(v) != v then None else Some(v)
  }

  /** An entry is listed exactly when it is the archive name of a non-empty canonical version. */
  lemma CandidateIff(name: string, modPath: string, v: string, canonical: string -> string)
    ensures Candidate(name, modPath, canonical) == Some(v)
        <==> name == ArchiveName(modPath, v) && v != "" && canonical(v) == v
  {
    var prefix := ModulePrefix(modPath);
    if name == ArchiveName(modPath, v) {
      assert name[..|prefix|] == prefix;
      assert name[|name| - 4..] == ArchiveSuffix;
      assert name[|prefix|..|name| - 4] == v;
    }
    if Candidate(name, modPath, canonical) == Some(v) {
      assert name == name[..|prefix|] + name[|prefix|..|name| - 4] + name[|name| - 4..];
    }
  }

  /** The versions in a directory listing, in listing order. */
  function ListedVersions(names: seq<string>, modPath: string, canonical: string -> string): seq<string>
  {
    if names == [] then []
    else
      (match Candidate(names[0], modPath, canonical)
       case None => []
       case Some(v) => [v])
      + ListedVersions(names[1..], modPath, canonical)
  }

  /** The listing of a concatenation is the concatenation of the listings: directory order is kept. */
  lemma {:induction false} ListedVersionsAppend(a: seq<string>, b: seq<string>, modPath: string, canonical: string -> string)
    ensures ListedVersions(a + b, modPath, canonical)
         == ListedVersions(a, modPath, canonical) + ListedVersions(b, modPath, canonical)
  {
    if a != [] {
      assert (a + b)[0] == a[0];
      assert (a + b)[1..] == a[1..] + b;
      ListedVersionsAppend(a[1..], b, modPath, canonical);
    } else {
      assert a + b == b;
    }
  }

  lemma ListedVersionsSnoc(names: seq<string>, i: nat, modPath: string, canonical: string -> string)
    requires i < |names|
    ensures Candidate(names[i], modPath, canonical).None? ==>
              ListedVersions(names[..i + 1], modPath, canonical) == ListedVersions(names[..i], modPath, canonical)
    ensures Candidate(names[i], modPath, canonical).Some? ==>
              ListedVersions(names[..i + 1], modPath, canonical)
              == ListedVersions(names[..i], modPath, canonical) + [Candidate(names[i], modPath, canonical).value]
  {
    assert names[..i + 1] == names[..i] + [names[i]];
    ListedVersionsAppend(names[..i], [names[i]], modPath, canonical);
    ListedVersionsSingle(names[i], modPath, canonical);
  }

  lemma ListedVersionsSingle(name: string, modPath: string, canonical: string -> string)
    ensures ListedVersions([name], modPath, canonical)
         == match Candidate(name, modPath, canonical) case None => [] case Some(v) => [v]
  {
    assert [name][1..] == [];
  }

  /** A version is listed exactly when the directory holds its archive and it is non-empty and canonical. */
  lemma {:induction false} ListedVersionsIff(names: seq<string>, modPath: string, v: string, canonical: string -> string)
    ensures v in ListedVersions(names, modPath, canonical)
        <==> ArchiveName(modPath, v) in names && v != "" && canonical(v) == v
  {
    if names != [] {
      ListedVersionsIff(names[1..], modPath, v, canonical);
      CandidateIff(names[0], modPath, v, canonical);
      assert names == [names[0]] + names[1..];
    }
  }

  /** The list body: each version followed by a newline. */
  function Lines(vs: seq<string>): string {
    if vs == [] then "" else vs[0] + "\n" + Lines(vs[1..])
  }

  lemma {:induction false} LinesAppend(a: seq<string>, b: seq<string>)
    ensures Lines(a + b) == Lines(a) + Lines(b)
  {
    if a != [] {
      assert (a + b)[0] == a[0];
      assert (a + b)[1..] == a[1..] + b;
      LinesAppend(a[1..], b);
    } else {
      assert a + b == b;
    }
  }

  lemma LinesSnoc(vs: seq<string>, v: string)
    ensures Lines(vs + [v]) == Lines(vs) + v + "\n"
  {
    LinesAppend(vs, [v]);
    assert [v][1..] == [];
  }

  /** `list`: the module's versions found in the store directory, one per line. */
  method List(store: Store, modPath: string, canonical: string -> string) returns (r: Result<string, HandlerError>)
    ensures store.listing.None? ==> r == Failure(DirUnreadable(store.dir))
    ensures store.listing.Some? ==> r == Success(Lines(ListedVersions(store.listing.value, modPath, canonical)))
  {
    if store.listing.None? {
      return Failure(DirUnreadable(store.dir));
    }
    var names := store.listing.value;
    var buf := "";
    var prefix := ModulePrefix(modPath);
    var i := 0;
    while i < |names|
      invariant 0 <= i <= |names|
      invariant buf == Lines(ListedVersions(names[..i], modPath, canonical))
    {
      var name := names[i];
      ListedVersionsSnoc(names, i, modPath, canonical);
      if !HasPrefix(name, prefix) || !HasSuffix(name, ArchiveSuffix) {
        i := i + 1;
        continue;
      }
      PrefixSuffixDisjoint(name, prefix);
      var v := name[|prefix|..|name| - |ArchiveSuffix|];
      if v == "" || canonical(v) != v {
        i := i + 1;
        continue;
      }
      LinesSnoc(ListedVersions(names[..i], modPath, canonical), v);
      buf := buf + v + "\n";
      i := i + 1;
    }
    assert names[..i] == names;
    return Success(buf);
  }

  // ---------------------------------------------------------------------------
  // info, mod, zip
  // ---------------------------------------------------------------------------

  /** The JSON object `json.Marshal` writes for the info struct. */
  function InfoJson(version: string, time: string): string {
    "{\"Version\":\"" + version + "\",\"Time\":\"" + time + "\"}"
  }

  /** `info`: the file's existence is enough; the version is echoed with the file's time. */
  function Info(store: Store, modPath: string, version: string): (r: Result<string, HandlerError>)
    ensures var p := FileName(store.dir, modPath, version);
            r.Success? <==> p in store.files
    ensures r.Success? ==> r.value == InfoJson(version, store.files[FileName(store.dir, modPath, version)].modTime)
  {
    var p := FileName(store.dir, modPath, version);
    if p !in store.files then Failure(NoSuchFile("stat", p))
    else Success(InfoJson(version, store.files[p].modTime))
  }

  /** The data of the first file named `go.mod`, else the one-line fallback manifest. */
  function ModData(files: seq<ArchiveFile>, modPath: string): (r: string)
    ensures (exists i :: 0 <= i < |files| && files[i].name == "go.mod")
        ==> exists i :: 0 <= i < |files| && files[i].name == "go.mod" && r == files[i].data
                    && forall j :: 0 <= j < i ==> files[j].name != "go.mod"
    ensures (forall i :: 0 <= i < |files| ==> files[i].name != "go.mod") ==> r == "module " + modPath
  {
    if files == [] then "module " + modPath
    else if files[0].name == "go.mod" then files[0].data
    else
      var r := ModData(files[1..], modPath);
      assert forall i :: 1 <= i < |files| ==> files[i] == files[1..][i - 1];
      r
  }

  /**
    `txtar.ParseFile` on the store: a missing file fails to open, an
    existing one can still fail to be read, and otherwise gives its archive.
   */
  function ParseFile(store: Store, p: string): (r: Result<Archive, HandlerError>)
    ensures r.Success? <==> p in store.files && store.files[p].archive.Success?
    ensures p !in store.files ==> r == Failure(NoSuchFile("open", p))
    ensures p in store.files && store.files[p].archive.Failure? ==> r == Failure(ReadFailed(store.files[p].archive.error))
    ensures r.Success? ==> r.value == store.files[p].archive.value
  {
    if p !in store.files then Failure(NoSuchFile("open", p))
    else
      match store.files[p].archive
      case Failure(text) => Failure(ReadFailed(text))
      case Success(arc) => Success(arc)
  }

  /** `mod`: parse the archive and return its go.mod; a missing or unreadable archive is an error. */
  function Mod(store: Store, modPath: string, version: string): (r: Result<string, HandlerError>)
    ensures var p := FileName(store.dir, modPath, version);
            && (r.Success? <==> p in store.files && store.files[p].archive.Success?)
            && (r.Failure? ==> r.error == ParseFile(store, p).error)
            && (r.Success? ==> r.value == ModData(store.files[p].archive.value.files, modPath))
  {
    var p := FileName(store.dir, modPath, version);
    match ParseFile(store, p)
    case Failure(e) => Failure(e)
    case Success(arc) => Success(ModData(arc.files, modPath))
  }

  /** The prefix of every zip entry name. */
  function ZipPrefix(modPath: string, version: string): string {
    modPath + "@" + version + "/"
  }

  /** `zip`: one entry per archive file, in archive order, under `<modPath>@<version>/`. */
  method Zip(store: Store, modPath: string, version: string) returns (r: Result<seq<ZipEntry>, HandlerError>)
    ensures var p := FileName(store.dir, modPath, version);
            r.Success? <==> p in store.files && store.files[p].archive.Success?
    ensures var p := FileName(store.dir, modPath, version);
            r.Failure? ==> r.error == ParseFile(store, p).error
    ensures r.Success? ==>
              var files := store.files[FileName(store.dir, modPath, version)].archive.value.files;
              |r.value| == |files|
              && forall i :: 0 <= i < |files| ==>
                   r.value[i] == ZipEntry(ZipPrefix(modPath, version) + files[i].name, files[i].data)
  {
    var p := FileName(store.dir, modPath, version);
    var arc := ParseFile(store, p);
    if arc.Failure? {
      return Failure(arc.error);
    }
    var files := arc.value.files;
    var prefix := ZipPrefix(modPath, version);
    var entries: seq<ZipEntry> := [];
    for i := 0 to |files|
      invariant |entries| == i
      invariant forall k :: 0 <= k < i ==> entries[k] == ZipEntry(prefix + files[k].name, files[k].data)
    {
      entries := entries + [ZipEntry(prefix + files[i].name, files[i].data)];
    }
    return Success(entries);
  }

  /** The zip entries as a function, for the response specification. */
  function ZipEntries(files: seq<ArchiveFile>, prefix: string): (r: seq<ZipEntry>)
    ensures |r| == |files|
    ensures forall i :: 0 <= i < |files| ==> r[i] == ZipEntry(prefix + files[i].name, files[i].data)
  {
    if files == [] then []
    else [ZipEntry(prefix + files[0].name, files[0].data)] + ZipEntries(files[1..], prefix)
  }

  // ---------------------------------------------------------------------------
  // ServeHTTP
  // ---------------------------------------------------------------------------

  /** The Content-Type of a successful response to each operation. */
  function ContentType(ext: string): string {
    if ext == "info" then "application/json"
    else if ext == "zip" then "application/zip"
    else "text/plain"
  }

  /** `writeStatus`: the status and its text, no Content-Type. */
  function WriteStatus(code: int): Response {
    Response(code, None, Text(StatusText(code)))
  }

  /** `writeError`: the status, then `<status text>: <error>`. */
  function WriteError(code: int, text: string): Response {
    Response(code, None, Text(StatusText(code) + ": " + text))
  }

  function HandlerResponse(ext: string, r: Result<Body, HandlerError>): Response {
    match r
    case Failure(e) => WriteError(404, HandlerErrorText(e))
    case Success(b) => Response(200, Some(ContentType(ext)), b)
  }

  /** The body an accepted request is answered with, or the handler's error. */
  function Handle(store: Store, req: Request, canonical: string -> string): Result<Body, HandlerError>
  {
    var p := FileName(store.dir, req.modPath, req.version);
    if req.ext == "list" then
      if store.listing.None? then Failure(DirUnreadable(store.dir))
      else Success(Text(Lines(ListedVersions(store.listing.value, req.modPath, canonical))))
    else if req.ext == "info" then
      (match Info(store, req.modPath, req.version)
       case Failure(e) => Failure(e)
       case Success(t) => Success(Text(t)))
    else if req.ext == "mod" then
      (match Mod(store, req.modPath, req.version)
       case Failure(e) => Failure(e)
       case Success(t) => Success(Text(t)))
    else
      match ParseFile(store, p)
      case Failure(e) => Failure(e)
      case Success(arc) => Success(ZipBody(ZipEntries(arc.files, ZipPrefix(req.modPath, req.version))))
  }

  /** The response to one request, as a function of the store. */
  function Respond(store: Store, httpMethod: string, path: string, canonical: string -> string): Response
  {
    if httpMethod != "GET" && httpMethod != "HEAD" then WriteStatus(400)
    else
      match ParsePath(path, canonical)
      case Failure(e) => WriteError(404, ParseErrorText(e))
      case Success(req) =>
        if req.ext == "latest" then WriteStatus(404)
        else HandlerResponse(req.ext, Handle(store, req, canonical))
  }

  /** `ServeHTTP`: dispatch on the method and the parsed operation. */
  method ServeHTTP(store: Store, httpMethod: string, path: string, canonical: string -> string) returns (resp: Response)
    ensures resp == Respond(store, httpMethod, path, canonical)
  {
    if httpMethod != "GET" && httpMethod != "HEAD" {
      return WriteStatus(400);
    }
    var parsed := ParsePath(path, canonical);
    if parsed.Failure? {
      return WriteError(404, ParseErrorText(parsed.error));
    }
    var req := parsed.value;
    var contentType: string;
    var data: Result<Body, HandlerError>;
    if req.ext == "latest" {
      return WriteStatus(404);
    } else if req.ext == "list" {
      contentType := "text/plain";
      var r := List(store, req.modPath, canonical);
      data := match r case Failure(e) => Failure(e) case Success(t) => Success(Text(t));
    } else if req.ext == "info" {
      contentType := "application/json";
      var r := Info(store, req.modPath, req.version);
      data := match r case Failure(e) => Failure(e) case Success(t) => Success(Text(t));
    } else if req.ext == "mod" {
      contentType := "text/plain";
      var r := Mod(store, req.modPath, req.version);
      data := match r case Failure(e) => Failure(e) case Success(t) => Success(Text(t));
    } else {
      assert req.ext == "zip";
      contentType := "application/zip";
      var r := Zip(store, req.modPath, req.version);
      assert r.Success? ==> r.value == ZipEntries(store.files[FileName(store.dir, req.modPath, req.version)].archive.value.files,
                                                  ZipPrefix(req.modPath, req.version));
      data := match r case Failure(e) => Failure(e) case Success(z) => Success(ZipBody(z));
    }
    if data.Failure? {
      return WriteError(404, HandlerErrorText(data.error));
    }
    return Response(200, Some(contentType), data.value);
  }

  /** Only GET and HEAD are served; every other method is a bad request. */
  lemma RespondRejectsMethods(store: Store, httpMethod: string, path: string, canonical: string -> string)
    ensures (Respond(store, httpMethod, path, canonical).status == 400)
        <==> (httpMethod != "GET" && httpMethod != "HEAD")
  {
  }

  /**
    The status table: 404 exactly for a parse error, `@latest` or a handler
    error; otherwise 200 with the operation's Content-Type.
   */
  lemma RespondStatus(store: Store, httpMethod: string, path: string, canonical: string -> string)
    requires httpMethod == "GET" || httpMethod == "HEAD"
    ensures var resp := Respond(store, httpMethod, path, canonical);
            var parsed := ParsePath(path, canonical);
            && (resp.status == 404 <==>
                  parsed.Failure? || parsed.value.ext == "latest"
                  || Handle(store, parsed.value, canonical).Failure?)
            && (resp.status != 404 ==>
                  && resp.status == 200
                  && (parsed.value.ext == "list" || parsed.value.ext == "mod" ==> resp.contentType == Some("text/plain"))
                  && (parsed.value.ext == "info" ==> resp.contentType == Some("application/json"))
                  && (parsed.value.ext == "zip" ==> resp.contentType == Some("application/zip")))
  {
    var parsed := ParsePath(path, canonical);
    if parsed.Success? && parsed.value.ext != "latest" {
      var h := Handle(store, parsed.value, canonical);
      assert Respond(store, httpMethod, path, canonical) == HandlerResponse(parsed.value.ext, h);
    }
  }

  /**
    `info` only needs the archive to exist, while `mod` and `zip` must read
    it: an archive that exists but cannot be read is described by `info`
    and refused by `mod` and `zip` with the read error.
   */
  lemma StatWithoutRead(store: Store, req: Request, canonical: string -> string)
    requires var p := FileName(store.dir, req.modPath, req.version);
             p in store.files && store.files[p].archive.Failure?
    ensures var p := FileName(store.dir, req.modPath, req.version);
            && (req.ext == "info" ==> Handle(store, req, canonical).Success?)
            && (req.ext == "mod" || req.ext == "zip" ==>
                  Handle(store, req, canonical) == Failure(ReadFailed(store.files[p].archive.error)))
  {
  }

  /** A request the parser rejects is answered without looking at the store. */
  lemma RejectedPathIgnoresStore(s1: Store, s2: Store, httpMethod: string, path: string, canonical: string -> string)
    requires ParsePath(path, canonical).Failure? || ParsePath(path, canonical).value.ext == "latest"
    ensures Respond(s1, httpMethod, path, canonical) == Respond(s2, httpMethod, path, canonical)
  {
  }

  /** A non-canonical version is rejected by the parser, so the store is never consulted. */
  lemma NonCanonicalVersionRejected(modPath: string, version: string, ext: string, canonical: string -> string)
    requires Escapable(modPath) && '@' !in modPath && Escapable(version)
    requires version != "" && canonical(version) != version
    requires ext in Extensions
    ensures ParsePath(RequestPath(Request(modPath, version, ext)), canonical)
         == Failure(ParseError(RequestPath(Request(modPath, version, ext)), NotCanonical(version)))
  {
    var path := RequestPath(Request(modPath, version, ext));
    var e := Escape(modPath);
    var ev := Escape(version);
    UnescapeEscape(version);
    assert path[..1] == "/";
    assert path[1..] == e + VersionMarker + ev + "." + ext;
    SplitOfVersionPath(e, ev, ext, canonical);
  }

  /** The archive `fileName` names for a canonical version is the one `list` reports. */
  lemma StoredVersionIsListed(names: seq<string>, dir: string, modPath: string, version: string, canonical: string -> string)
    requires version != "" && canonical(version) == version
    requires ArchiveName(modPath, version) in names
    ensures version in ListedVersions(names, modPath, canonical)
    ensures HasSuffix(FileName(dir, modPath, version), ArchiveName(modPath, version))
  {
    ListedVersionsIff(names, modPath, version, canonical);
  }
}
