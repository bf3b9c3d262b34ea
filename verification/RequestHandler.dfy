/** Turning a request into a reply: path checks, the file read loop, the framing headers. */
module RequestHandler {
  import opened Text
  import opened Http
  import opened UrlCodec
  import opened Replies

  /** Two dots in a row anywhere in s. */
  predicate HasDotDot(s: string) {
    exists i | 0 <= i < |s| - 1 :: s[i] == '.' && s[i + 1] == '.'
  }

  /** A path handed to the operating system ends at its first zero byte. */
  function CString(s: string): string {
    if s == "" || s[0] == '\0' then "" else [s[0]] + CString(s[1..])
  }

  /** What the handler may depend on: the document root, the files behind it, the hex reader. */
  datatype Site = Site(root: string, files: map<string, string>, read: HexReader)

  datatype Route = Malformed | Missing | Found(location: string, content: string)

  predicate Servable(path: string) {
    path != "" && path[0] == '/' && !HasDotDot(path)
  }

  /** The path below the root that is opened for a servable path. */
  function WithIndex(path: string): string {
    if path != "" && path[|path| - 1] == '/' then path + "index.html" else path
  }

  /** The name handed to the operating system for a servable path. */
  function OpenedName(site: Site, path: string): string {
    CString(site.root + WithIndex(path))
  }

  function RouteOf(site: Site, uri: string): Route {
    match Decode(site.read, uri)
    case None => Malformed
    case Some(path) =>
      if !Servable(path) then Malformed
      else
        var location := OpenedName(site, path);
        if location in site.files then Found(location, site.files[location]) else Missing
  }

  /** The reply record after handling a request, from what it held before. */
  function Handle(site: Site, uri: string, rep: ReplyData): ReplyData {
    match RouteOf(site, uri)
    case Malformed => StockReply(400)
    case Missing => StockReply(404)
    case Found(_, content) => ReplyData(200, BodyHeaders(rep.content + content), rep.content + content)
  }

  // ---------------------------------------------------------------- the file stream

  /** An input file stream: a read that comes up short puts it in a failed state. */
  class FileStream {
    const content: string
    var position: nat
    var failed: bool

    ghost predicate Valid()
      reads this
    {
      position <= |content| && (failed ==> position == |content|)
    }

    constructor (content: string)
      ensures Valid() && this.content == content && position == 0
    {
      this.content, position, failed := content, 0, false;
    }

    /** Fills the front of buf; the count is what `gcount` reports. */
    method Read(buf: array<char>) returns (count: nat)
      requires Valid()
      modifies this, buf
      ensures Valid() && position == old(position) + count && count <= buf.Length
      ensures buf[..count] == content[old(position)..position]
      ensures count < buf.Length ==> position == |content|
    {
      if failed { return 0; }
      count := if buf.Length <= |content| - position then buf.Length else |content| - position;
      for i := 0 to count
        invariant forall k | 0 <= k < i :: buf[k] == content[position + k]
        modifies buf
      {
        buf[i] := content[position + i];
      }
      assert buf[..count] == content[position..position + count];
      position := position + count;
      failed := count < buf.Length;
    }
  }

  // ---------------------------------------------------------------- the handler

  class Handler {
    const site: Site

    constructor (site: Site)
      ensures this.site == site
    {
      this.site := site;
    }

    method HandleRequest(req: Request, rep: Reply)
      modifies rep
      ensures rep.Data() == Handle(site, req.uri, old(rep.Data()))
    {
      var decoded := UrlDecode(site.read, req.uri);
      if decoded.None? {
        rep.Assign(StockReply(400));
        return;
      }
      var path := decoded.value;
      if path == "" || path[0] != '/' || HasDotDot(path) {
        rep.Assign(StockReply(400));
        return;
      }
      if path[|path| - 1] == '/' {
        path := path + "index.html";
      }
      var fullPath := CString(site.root + path);
      if fullPath !in site.files {
        rep.Assign(StockReply(404));
        return;
      }
      var file := new FileStream(site.files[fullPath]);
      rep.status := 200;
      var buf := new char[512];
      var more := true;
      while more
        invariant fresh(file) && fresh(buf) && file.Valid()
        invariant file.content == site.files[fullPath] && buf.Length == 512
        invariant rep.content == old(rep.content) + file.content[..file.position]
        invariant rep.status == 200 && (!more ==> file.position == |file.content|)
        decreases |file.content| - file.position, more
      {
        ghost var before := file.position;
        var count := file.Read(buf);
        if count > 0 {
          rep.content := rep.content + buf[..count];
          assert file.content[..before] + file.content[before..file.position] == file.content[..file.position];
        }
        more := count > 0;
      }
      assert file.content[..file.position] == file.content;
      // the header vector is resized to two and all four strings are overwritten
      rep.headers := BodyHeaders(rep.content);
    }
  }

  // ---------------------------------------------------------------- framing

  lemma HandleShape(site: Site, uri: string, rep: ReplyData)
    ensures var r := Handle(site, uri, rep);
            && r.headers == BodyHeaders(r.content) && r.status in {200, 400, 404}
            && (RouteOf(site, uri).Found? ==> r.content == rep.content + RouteOf(site, uri).content)
  {
    hide RouteOf, StockBody, BodyHeaders;
  }

  /** On every path the reply names the length of the body it carries, in exactly two
      headers, and survives the wire. */
  lemma FramedAndReadable(site: Site, uri: string, rep: ReplyData)
    ensures var r := Handle(site, uri, rep);
            && |r.headers| == 2 && r.headers[0].name == "Content-Length"
            && Number(r.headers[0].value) == |r.content|
            && r.headers[1] == Header("Content-Type", "text/html")
            && ReadReply(Serialize(r)) == Some(r)
    ensures RouteOf(site, uri).Found? && rep.content == "" ==> Handle(site, uri, rep).content == RouteOf(site, uri).content
  {
    hide Handle, RouteOf, Serialize, ReadReply, Decimal, AllClean;
    var r := Handle(site, uri, rep);
    HandleShape(site, uri, rep);
    NumberOfDecimal(|r.content|);
    BodyHeadersClean(r.content);
    ReadsBackExactly(r);
  }

  // ---------------------------------------------------------------- which requests get what

  lemma {:induction false} CStringWholeExactly(s: string)
    ensures '\0' !in CString(s)
    ensures CString(s) == s <==> '\0' !in s
  {
    if s != "" && s[0] != '\0' {
      CStringWholeExactly(s[1..]);
      assert [s[0]] + s[1..] == s;
      assert [s[0]] + CString(s[1..]) == s ==> CString(s[1..]) == s[1..];
    }
  }

  /** A request is refused exactly when its uri does not decode, or decodes to a path that is
      empty, does not start with '/' or has two dots in a row. */
  lemma RefusedExactly(site: Site, uri: string, rep: ReplyData)
    ensures Handle(site, uri, rep).status == 400
            <==> match Decode(site.read, uri)
                 case None => true
                 case Some(path) =>
                   || path == "" || path[0] != '/'
                   || exists i | 0 <= i < |path| - 1 :: path[i] == '.' && path[i + 1] == '.'
  {
  }

  /** Any other path names the file below the root, a trailing '/' its index.html, up to the first
      zero byte; the answer is that file, or 404 if there is none. */
  lemma AnsweredExactly(site: Site, uri: string, path: string, rep: ReplyData)
    requires Decode(site.read, uri) == Some(path) && Handle(site, uri, rep).status != 400
    ensures path != ""
    ensures var name := site.root + path + if path[|path| - 1] == '/' then "index.html" else "";
            && (Handle(site, uri, rep).status == 404 <==> CString(name) !in site.files)
            && (Handle(site, uri, rep).status == 200 <==> CString(name) in site.files)
            && ('\0' !in name ==> CString(name) == name)
            && (CString(name) in site.files ==> Handle(site, uri, rep).content == rep.content + site.files[CString(name)])
  {
    var name := site.root + path + if path[|path| - 1] == '/' then "index.html" else "";
    assert name == site.root + WithIndex(path);
    CStringWholeExactly(name);
  }

  // ---------------------------------------------------------------- the shape of opened paths

  /** The names between the slashes of a path. */
  function Components(path: string): (names: seq<string>)
    ensures names != []
  {
    if path == "" then [""]
    else
      var names := Components(path[1..]);
      if path[0] == '/' then [""] + names else [[path[0]] + names[0]] + names[1..]
  }

  function Join(names: seq<string>): string
    requires names != []
  {
    if |names| == 1 then names[0] else names[0] + "/" + Join(names[1..])
  }

  /** How far below its start a walk along the names ends. */
  function Depth(names: seq<string>): int {
    if names == [] then 0
    else
      var last := names[|names| - 1];
      Depth(names[..|names| - 1]) + if last == ".." then -1 else if last == "" || last == "." then 0 else 1
  }

  /** The components are a division of the path at every slash and nowhere else. */
  lemma {:induction false} ComponentsJoin(path: string)
    ensures Join(Components(path)) == path
    ensures forall i | 0 <= i < |Components(path)| :: '/' !in Components(path)[i]
  {
    if path != "" {
      var names := Components(path[1..]);
      ComponentsJoin(path[1..]);
      assert path == [path[0]] + path[1..];
      var all := Components(path);
      assert all[1..] == if path[0] == '/' then names else names[1..];
      if path[0] == '/' {
        assert "" + "/" + path[1..] == path;
      } else if |names| > 1 {
        assert [path[0]] + names[0] + "/" + Join(names[1..]) == [path[0]] + (names[0] + "/" + Join(names[1..]));
      }
    }
  }

  /** The first component is a prefix of the path. */
  lemma {:induction false} FirstComponent(path: string)
    ensures |Components(path)[0]| <= |path| && Components(path)[0] == path[..|Components(path)[0]|]
  {
    if path != "" {
      FirstComponent(path[1..]);
    }
  }

  lemma {:induction false} NoParentComponent(path: string)
    requires !HasDotDot(path)
    ensures forall i | 0 <= i < |Components(path)| :: Components(path)[i] != ".."
  {
    FirstComponent(path);
    if path != "" {
      forall i | 0 <= i < |path| - 2
        ensures !(path[1..][i] == '.' && path[1..][i + 1] == '.')
      {
        assert path[i + 1] == path[1..][i];
      }
      NoParentComponent(path[1..]);
      var names, all := Components(path[1..]), Components(path);
      assert all[1..] == if path[0] == '/' then names else names[1..];
      forall i | 0 <= i < |all|
        ensures all[i] != ".."
      {
        if i == 0 {
          assert all[0] == path[..|all[0]|];
        } else {
          assert all[i] == all[1..][i - 1];
        }
      }
    }
  }

  lemma {:induction false} NeverRises(names: seq<string>)
    requires forall i | 0 <= i < |names| :: names[i] != ".."
    ensures Depth(names) >= 0
  {
    if names != [] {
      NeverRises(names[..|names| - 1]);
    }
  }

  lemma {:induction false} CStringIsPrefix(s: string)
    ensures |CString(s)| <= |s| && CString(s) == s[..|CString(s)|]
  {
    if s != "" && s[0] != '\0' {
      CStringIsPrefix(s[1..]);
    }
  }

  lemma {:induction false} CStringConcat(a: string, b: string)
    requires '\0' !in a
    ensures CString(a + b) == a + CString(b)
  {
    if a == "" {
      assert a + b == b;
    } else {
      assert (a + b)[1..] == a[1..] + b;
      CStringConcat(a[1..], b);
    }
  }

  lemma IndexAddsNoDots(path: string)
    requires Servable(path)
    ensures Servable(WithIndex(path))
  {
    var p := WithIndex(path);
    forall i | 0 <= i < |p| - 1
      ensures !(p[i] == '.' && p[i + 1] == '.')
    {
      if i < |path| - 1 {
        assert p[i] == path[i] && p[i + 1] == path[i + 1];
      } else if i >= |path| {
        assert p[i] == "index.html"[i - |path|] && p[i + 1] == "index.html"[i + 1 - |path|];
      }
    }
  }

  lemma PrefixAddsNoDots(path: string, n: nat)
    requires Servable(path) && 0 < n <= |path|
    ensures Servable(path[..n])
  {
    forall i | 0 <= i < n - 1
      ensures !(path[..n][i] == '.' && path[..n][i + 1] == '.')
    {
      assert path[..n][i] == path[i] && path[..n][i + 1] == path[i + 1];
    }
  }

  lemma {:induction false} CStringStops(a: string, b: string)
    requires '\0' in a
    ensures CString(a + b) == CString(a)
  {
    if a[0] != '\0' {
      assert (a + b)[1..] == a[1..] + b;
      CStringStops(a[1..], b);
    }
  }

  /** Every name that is opened, whether the file exists or not, is the root followed by a
      relative path that starts with '/', has no two dots in a row, and at no point of the walk
      along its components, none of which is "..", leads above the root. (A root with a zero byte hides the path.) */
  lemma ServedBelowRoot(site: Site, path: string) returns (relative: string)
    requires Servable(path)
    ensures OpenedName(site, path) == if '\0' in site.root then CString(site.root) else site.root + relative
    ensures Servable(relative)
    ensures relative != "" && relative[0] == '/'
    ensures forall i | 0 <= i < |Components(relative)| :: Components(relative)[i] != ".."
    ensures forall k | 0 <= k <= |Components(relative)| :: Depth(Components(relative)[..k]) >= 0
  {
    var full := WithIndex(path);
    IndexAddsNoDots(path);
    relative := CString(full);
    if '\0' in site.root {
      CStringStops(site.root, full);
    } else {
      CStringConcat(site.root, full);
    }
    CStringIsPrefix(full);
    PrefixAddsNoDots(full, |relative|);
    NoParentComponent(relative);
    forall k | 0 <= k <= |Components(relative)|
      ensures Depth(Components(relative)[..k]) >= 0
    {
      NeverRises(Components(relative)[..k]);
    }
  }

  /** However a path is percent-encoded, the reply is the same: the file with the opened name
      (index.html for a directory), 404 if there is none, 400 for an unservable path. */
  lemma EncodingDoesNotMatter(site: Site, path: string, forms: seq<Form>, rep: ReplyData)
    requires ReadsHex(site.read) && UrlCodec.Valid(path, forms)
    ensures var r, name := Handle(site, Encode(path, forms), rep), OpenedName(site, path);
            if !Servable(path) then r == StockReply(400)
            else if name !in site.files then r == StockReply(404)
            else r == ReplyData(200, BodyHeaders(rep.content + site.files[name]), rep.content + site.files[name])
  {
    DecodeUndoesEncode(site.read, path, forms);
  }

  /** The opened name is the path that was checked, below the root, exactly when neither
      holds a zero byte. */
  lemma OpensCheckedPathExactly(site: Site, path: string)
    ensures OpenedName(site, path) == site.root + WithIndex(path) <==> '\0' !in site.root && '\0' !in path
  {
    var full := site.root + WithIndex(path);
    CStringWholeExactly(full);
    assert forall c | c in path :: c in WithIndex(path);
    assert '\0' in full <==> '\0' in site.root || '\0' in path;
  }

  lemma {:induction false} CStringOfZero(s: string)
    ensures CString(s + "\0") == CString(s)
  {
    if s != "" && s[0] != '\0' {
      assert (s + "\0")[1..] == s[1..] + "\0";
      CStringOfZero(s[1..]);
    }
  }

  lemma CutAtZero(site: Site, a: string, b: string)
    ensures OpenedName(site, a + "\0" + b) == CString(site.root + a)
  {
    hide CString;
    var path := WithIndex(a + "\0" + b);
    assert a + "\0" <= path;
    var tail := path[|a| + 1..];
    assert site.root + path == site.root + a + "\0" + tail;
    CStringStops(site.root + a + "\0", tail);
    CStringOfZero(site.root + a);
  }

  /** Otherwise the name is cut short: whatever follows the zero byte, be it a file extension or
      the slash that asks for index.html, the file named by what precedes it is served. */
  lemma ZeroByteCutsName(site: Site, a: string, b: string, forms: seq<Form>, rep: ReplyData)
    requires ReadsHex(site.read) && UrlCodec.Valid(a + "\0" + b, forms) && Servable(a + "\0" + b)
    ensures var r, name := Handle(site, Encode(a + "\0" + b, forms), rep), CString(site.root + a);
            if name !in site.files then r == StockReply(404)
            else r == ReplyData(200, BodyHeaders(rep.content + site.files[name]), rep.content + site.files[name])
  {
    hide Handle, Encode, Decode, CString, UrlCodec.Valid, Servable;
    EncodingDoesNotMatter(site, a + "\0" + b, forms, rep);
    CutAtZero(site, a, b);
  }
}
