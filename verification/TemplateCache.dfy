/** The template cache and the memory image it writes. */
module TemplateCache {
  import opened Text

  datatype Template = Template(path: string, content: string)

  /** One entry met while walking the template directory; `content` is None if it cannot be read. */
  datatype Entry = Entry(path: string, regular: bool, extension: string, content: Option<string>)

  predicate Loadable(e: Entry) {
    e.regular && e.extension == ".whzt" && e.content.Some?
  }

  /** The templates in a directory listing. */
  ghost function Found(listing: seq<Entry>): multiset<Template> {
    if listing == [] then multiset{}
    else
      var e := listing[|listing| - 1];
      Found(listing[..|listing| - 1]) + if Loadable(e) then multiset{Template(e.path, e.content.value)} else multiset{}
  }

  lemma FoundNothing()
    ensures Found([]) == multiset{}
  {
  }

  lemma FoundStep(listing: seq<Entry>, i: nat)
    requires i < |listing|
    ensures var e := listing[i];
            Found(listing[..i + 1]) == Found(listing[..i]) + if Loadable(e) then multiset{Template(e.path, e.content.value)} else multiset{}
    ensures Loadable(listing[i]) ==> listing[i].content.Some?
  {
    assert listing[..i + 1][..i] == listing[..i];
  }

  // ---------------------------------------------------------------- the image

  /** Path and content of every template, each closed by a zero byte. */
  function Layout(templates: seq<Template>): string {
    if templates == [] then ""
    else templates[0].path + "\0" + templates[0].content + "\0" + Layout(templates[1..])
  }

  lemma {:induction false} LayoutPush(templates: seq<Template>, t: Template)
    ensures Layout(templates + [t]) == Layout(templates) + (t.path + "\0" + (t.content + "\0"))
  {
    if templates == [] {
      assert templates + [t] == [t];
      assert Layout([t]) == t.path + "\0" + t.content + "\0" + Layout([]);
    } else {
      assert (templates + [t])[1..] == templates[1..] + [t];
      LayoutPush(templates[1..], t);
      var first := templates[0].path + "\0" + templates[0].content + "\0";
      var last := t.path + "\0" + (t.content + "\0");
      assert first + (Layout(templates[1..]) + last) == first + Layout(templates[1..]) + last;
    }
  }

  /** The length of the string at the start of s, up to its first zero byte. */
  function StringLength(s: string): (n: nat)
    ensures n <= |s| && '\0' !in s[..n]
    ensures n < |s| ==> s[n] == '\0'
  {
    if s == "" || s[0] == '\0' then 0
    else
      var n := StringLength(s[1..]);
      assert s[..n + 1] == [s[0]] + s[1..][..n];
      n + 1
  }

  datatype Split = Split(template: Template, rest: string)

  /** The two strings at the start of s, each up to its zero byte, and what follows them. */
  function ReadTemplate(s: string): (r: Option<Split>)
    ensures r.Some? ==> |r.value.rest| < |s| && '\0' !in r.value.template.path && '\0' !in r.value.template.content
  {
    var n := StringLength(s);
    if n == |s| then None
    else
      var after := s[n + 1..];
      var k := StringLength(after);
      if k == |after| then None else Some(Split(Template(s[..n], after[..k]), after[k + 1..]))
  }

  /** A reader that splits the image at its zero bytes. */
  function ReadImage(s: string): Option<seq<Template>>
    decreases |s|
  {
    if s == "" then Some([])
    else match ReadTemplate(s)
      case None => None
      case Some(split) =>
        match ReadImage(split.rest)
        case None => None
        case Some(templates) => Some([split.template] + templates)
  }

  predicate ZeroFree(templates: seq<Template>) {
    forall i | 0 <= i < |templates| :: '\0' !in templates[i].path && '\0' !in templates[i].content
  }

  lemma {:induction false} StringEndsAtZero(text: string, rest: string)
    requires '\0' !in text
    ensures StringLength(text + "\0" + rest) == |text|
  {
    if text != "" {
      assert (text + "\0" + rest)[1..] == text[1..] + "\0" + rest;
      StringEndsAtZero(text[1..], rest);
    }
  }

  lemma ReadOneTemplate(t: Template, rest: string)
    requires '\0' !in t.path && '\0' !in t.content
    ensures ReadTemplate(t.path + "\0" + t.content + "\0" + rest) == Some(Split(t, rest))
  {
    var after := t.content + "\0" + rest;
    var s := t.path + "\0" + t.content + "\0" + rest;
    assert s == t.path + "\0" + after;
    StringEndsAtZero(t.path, after);
    StringEndsAtZero(t.content, rest);
    hide StringLength;
    assert s[..|t.path|] == t.path && s[|t.path| + 1..] == after;
    assert after[..|t.content|] == t.content && after[|t.content| + 1..] == rest;
  }

  lemma {:induction false} ReadOfLayout(templates: seq<Template>)
    requires ZeroFree(templates)
    ensures ReadImage(Layout(templates)) == Some(templates)
  {
    hide ReadTemplate;
    if templates != [] {
      ReadOfLayout(templates[1..]);
      ReadOneTemplate(templates[0], Layout(templates[1..]));
      assert [templates[0]] + templates[1..] == templates;
    }
  }

  lemma {:induction false} ReadIsZeroFree(s: string)
    requires ReadImage(s).Some?
    ensures ZeroFree(ReadImage(s).value)
    decreases |s|
  {
    hide ReadTemplate;
    if s != "" {
      ReadIsZeroFree(ReadTemplate(s).value.rest);
    }
  }

  /** Splitting the image at its zero bytes recovers the templates exactly when no path or
      content contains one. */
  lemma ImageReadsBackExactly(templates: seq<Template>)
    ensures ReadImage(Layout(templates)) == Some(templates) <==> ZeroFree(templates)
  {
    if ZeroFree(templates) {
      ReadOfLayout(templates);
    }
    if ReadImage(Layout(templates)).Some? {
      ReadIsZeroFree(Layout(templates));
    }
  }

  lemma {:induction false} LayoutFits(templates: seq<Template>, n: nat)
    requires n <= |templates|
    ensures |Layout(templates[..n])| <= |Layout(templates)|
    decreases |templates| - n
  {
    if n < |templates| {
      LayoutPush(templates[..n], templates[n]);
      assert templates[..n] + [templates[n]] == templates[..n + 1];
      LayoutFits(templates, n + 1);
    } else {
      assert templates[..n] == templates;
    }
  }

  /** `memcpy` of a C string with its terminator: nothing before ptr or after the copy changes. */
  method CopyWithZero(image: array<char>, ptr: nat, s: string)
    requires ptr + |s| + 1 <= image.Length
    modifies image
    ensures image[..ptr + |s| + 1] == old(image[..ptr]) + (s + "\0")
    ensures image[ptr + |s| + 1..] == old(image[ptr + |s| + 1..])
  {
    for i := 0 to |s| + 1
      invariant forall k | 0 <= k < ptr :: image[k] == old(image[k])
      invariant forall k | 0 <= k < i :: image[ptr + k] == (s + "\0")[k]
      invariant forall k | ptr + |s| + 1 <= k < image.Length :: image[k] == old(image[k])
    {
      image[ptr + i] := (s + "\0")[i];
    }
  }

  /** Path, then content, each copied to the current position, which moves past it. */
  method WriteTemplate(image: array<char>, start: nat, t: Template) returns (ptr: nat)
    requires start + |t.path| + |t.content| + 2 <= image.Length
    modifies image
    ensures ptr == start + |t.path| + |t.content| + 2
    ensures image[..ptr] == old(image[..start]) + (t.path + "\0" + (t.content + "\0"))
    ensures image[ptr..] == old(image[ptr..])
  {
    ptr := start;
    CopyWithZero(image, ptr, t.path);
    ptr := ptr + |t.path| + 1;
    ghost var end := ptr + |t.content| + 1;
    assert image[end..] == image[ptr..][|t.content| + 1..];
    assert old(image[end..]) == old(image[start + |t.path| + 1..])[|t.content| + 1..];
    CopyWithZero(image, ptr, t.content);
    ptr := ptr + |t.content| + 1;
    assert old(image[..start]) + (t.path + "\0") + (t.content + "\0")
        == old(image[..start]) + (t.path + "\0" + (t.content + "\0"));
  }

  // ---------------------------------------------------------------- lookups

  /** Loadable entries with different paths. */
  predicate DistinctPaths(listing: seq<Entry>) {
    forall i, j | 0 <= i < j < |listing| && Loadable(listing[i]) && Loadable(listing[j]) :: listing[i].path != listing[j].path
  }

  /** Entry i of a listing is a readable template file and is cached as t. */
  predicate CachedAs(listing: seq<Entry>, i: int, t: Template) {
    0 <= i < |listing| && Loadable(listing[i]) && t == Template(listing[i].path, listing[i].content.value)
  }

  lemma {:induction false} FoundExactly(listing: seq<Entry>, t: Template)
    ensures t in Found(listing) <==> exists i :: CachedAs(listing, i, t)
  {
    if listing != [] {
      var n := |listing| - 1;
      var shorter := listing[..n];
      FoundExactly(shorter, t);
      assert t in Found(listing) <==> t in Found(shorter) || CachedAs(listing, n, t);
      hide Found;
      assert forall i | i != n :: CachedAs(shorter, i, t) <==> CachedAs(listing, i, t);
      assert !CachedAs(shorter, n, t);
    }
  }

  /** After a reload of a directory, a lookup that meets its contract returns for every readable
      template file its own content, and the empty string for every other path. */
  lemma LookupAfterReload(listing: seq<Entry>, path: string, content: string)
    requires DistinctPaths(listing)
    requires Template(path, content) in Found(listing)
             || (content == "" && forall t | t in Found(listing) :: t.path != path)
    ensures forall i | 0 <= i < |listing| && listing[i].path == path && listing[i].regular && listing[i].extension == ".whzt" ::
              listing[i].content.Some? ==> content == listing[i].content.value
    ensures (forall i | 0 <= i < |listing| && listing[i].path == path ::
               !(listing[i].regular && listing[i].extension == ".whzt" && listing[i].content.Some?)) ==> content == ""
  {
    hide Found;
    FoundExactly(listing, Template(path, content));
    forall i | 0 <= i < |listing| && listing[i].path == path && Loadable(listing[i])
      ensures content == listing[i].content.value
    {
      FoundExactly(listing, Template(path, listing[i].content.value));
      assert CachedAs(listing, i, Template(path, listing[i].content.value));
    }
  }

  // ---------------------------------------------------------------- the cache

  class Cache {
    /** The multimap in its iteration order, which the hash function decides. */
    var templates: seq<Template>

    constructor ()
      ensures templates == []
    {
      templates := [];
    }

    /** The new element ends up anywhere in the iteration order. */
    method Emplace(t: Template)
      modifies this
      ensures multiset(templates) == old(multiset(templates)) + multiset{t}
    {
      var i: nat :| i <= |templates|;
      assert templates == templates[..i] + templates[i..];
      templates := templates[..i] + [t] + templates[i..];
    }

    method LoadTemplates(listing: seq<Entry>)
      modifies this
      ensures multiset(templates) == old(multiset(templates)) + Found(listing)
    {
      hide Found, Loadable;
      FoundNothing();
      for i := 0 to |listing|
        invariant multiset(templates) == old(multiset(templates)) + Found(listing[..i])
      {
        var e := listing[i];
        FoundStep(listing, i);
        if Loadable(e) {
          Emplace(Template(e.path, e.content.value));
        }
      }
      assert listing[..|listing|] == listing;
    }

    method ReloadTemplates(listing: seq<Entry>)
      modifies this
      ensures multiset(templates) == Found(listing)
    {
      templates := [];
      LoadTemplates(listing);
    }

    /** The content of some template with that path, or the empty string if there is none. */
    method GetTemplate(path: string) returns (content: string)
      ensures Template(path, content) in multiset(templates)
              || (content == "" && forall t | t in multiset(templates) :: t.path != path)
    {
      for i := 0 to |templates|
        invariant forall k | 0 <= k < i :: templates[k].path != path
      {
        if templates[i].path == path {
          assert templates[i] in templates;
          return templates[i].content;
        }
      }
      return "";
    }

    /** A lookup right after a reload finds every readable template file with its own content,
        and nothing under any other path. */
    method ReloadThenGet(listing: seq<Entry>, path: string) returns (content: string)
      requires DistinctPaths(listing)
      modifies this
      ensures forall i | 0 <= i < |listing| && listing[i].path == path && listing[i].regular && listing[i].extension == ".whzt" ::
                listing[i].content.Some? ==> content == listing[i].content.value
      ensures (forall i | 0 <= i < |listing| && listing[i].path == path ::
                 !(listing[i].regular && listing[i].extension == ".whzt" && listing[i].content.Some?)) ==> content == ""
    {
      ReloadTemplates(listing);
      content := GetTemplate(path);
      LookupAfterReload(listing, path, content);
    }

    /** Size pass, then write pass at an advancing position. The mapped file may hold
        anything before; afterwards every byte of it has been written. */
    method MemoryMapTemplates() returns (image: array<char>)
      ensures fresh(image) && image[..] == Layout(templates)
    {
      var size := 0;
      assert Layout(templates[..0]) == "";
      hide Layout;
      for i := 0 to |templates|
        invariant size == |Layout(templates[..i])|
      {
        LayoutPush(templates[..i], templates[i]);
        assert templates[..i] + [templates[i]] == templates[..i + 1];
        size := size + |templates[i].path| + |templates[i].content| + 2;
      }
      assert templates[..|templates|] == templates;
      image := new char[size];
      var ptr := 0;
      for i := 0 to |templates|
        invariant ptr == |Layout(templates[..i])| <= image.Length
        invariant image[..ptr] == Layout(templates[..i])
      {
        var t := templates[i];
        LayoutPush(templates[..i], t);
        assert templates[..i] + [t] == templates[..i + 1];
        LayoutFits(templates, i + 1);
        ptr := WriteTemplate(image, ptr, t);
      }
      assert image[..ptr] == image[..];
    }
  }
}
