/**
 The `vite_asset` template tag: it looks an entry up in the Vite build
 manifest and renders one stylesheet link per CSS file of the entry, then
 one module script for the entry's JavaScript file, joined by "\n ".
 */
module ViteTags {
  import opened Wrappers

  /** One manifest record, reduced to the two keys the tag reads. */
  datatype Entry = Entry(file: Option<string>, css: Option<seq<string>>)

  /** The decoded manifest: a JSON object from entry names to records. */
  type Manifest = map<string, Entry>

  /** What reading the manifest file produced. */
  datatype ManifestSource =
    | Missing                     // no file at the manifest path
    | Undecodable                 // the file is not valid JSON
    | Loaded(manifest: Manifest)

  /** What the tag returns, or the exception it raises. */
  datatype Outcome =
    | Rendered(html: string)
    | KeyError(key: string)       // a key the tag reads without checking is absent

  /** The string the tags are joined with. */
  const Separator: string := "\n "

  /** The fixed text of the two tags, around the URL. */
  const LinkHead: string := "<link rel=\"stylesheet\" href=\""
  const LinkTail: string := "\">"
  const ScriptHead: string := "<script type=\"module\" src=\""
  const ScriptTail: string := "\"></script>"

  function LinkTag(url: string): string {
    LinkHead + url + LinkTail
  }

  function ScriptTag(url: string): string {
    ScriptHead + url + ScriptTail
  }

  /** Recognises a script tag by its opening; no link tag opens this way. */
  predicate IsScriptTag(tag: string) {
    |tag| >= 7 && tag[..7] == "<script"
  }

  /** The entry's CSS list; an absent 'css' key reads as no CSS files. */
  function CssFiles(e: Entry): seq<string> {
    if e.css.Some? then e.css.value else []
  }

  /** One stylesheet link per CSS file, in the given order. */
  function Links(staticUrl: string -> string, css: seq<string>): seq<string> {
    if css == [] then [] else [LinkTag(staticUrl(css[0]))] + Links(staticUrl, css[1..])
  }

  /** The tags the source renders for an entry that has a 'file' key. */
  function EntryTags(e: Entry, staticUrl: string -> string): seq<string>
    requires e.file.Some?
  {
    Links(staticUrl, CssFiles(e)) + [ScriptTag(staticUrl(e.file.value))]
  }

  /** Python's `sep.join(parts)`. */
  function Join(sep: string, parts: seq<string>): string {
    if |parts| == 0 then ""
    else if |parts| == 1 then parts[0]
    else parts[0] + sep + Join(sep, parts[1..])
  }

  /** The inverse of joining with Separator: cut at every occurrence of it. */
  function SplitTags(s: string): seq<string> {
    SplitFrom(s, "")
  }

  function SplitFrom(s: string, current: string): seq<string>
    decreases |s|
  {
    if |s| == 0 then [current]
    else if |s| >= 2 && s[..2] == Separator then [current] + SplitFrom(s[2..], "")
    else SplitFrom(s[1..], current + [s[0]])
  }

  /** The number of positions at which Separator occurs in s. */
  function CountSeparators(s: string): nat {
    if |s| < 2 then 0
    else (if s[..2] == Separator then 1 else 0) + CountSeparators(s[1..])
  }

  /**
   The template tag. `source` is the result of looking for and decoding the
   manifest file; `staticUrl` is the URL mapping of the static-files app.
   */
  method ViteAsset(source: ManifestSource, entry: string, staticUrl: string -> string)
    returns (out: Outcome)
    ensures !source.Loaded? ==> out == Rendered("")
    ensures source.Loaded? && entry !in source.manifest ==> out == Rendered("")
    ensures source.Loaded? && entry in source.manifest && source.manifest[entry].file.None?
            ==> out == KeyError("file")
    ensures source.Loaded? && entry in source.manifest && source.manifest[entry].file.Some?
            ==> out == Rendered(Join(Separator, EntryTags(source.manifest[entry], staticUrl)))
  {
    if source.Missing? {
      return Rendered("");
    }
    if source.Undecodable? {
      return Rendered("");
    }
    var manifest := source.manifest;
    if entry !in manifest {
      return Rendered("");
    }
    var entryData := manifest[entry];
    var tags: seq<string> := [];
    if entryData.css.Some? {
      var css := entryData.css.value;
      for i := 0 to |css|
        invariant |tags| == i
        invariant forall k :: 0 <= k < i ==> tags[k] == LinkTag(staticUrl(css[k]))
      {
        tags := tags + [LinkTag(staticUrl(css[i]))];
      }
    }
    LinksShape(staticUrl, CssFiles(entryData));
    assert tags == Links(staticUrl, CssFiles(entryData));
    if entryData.file.None? {
      return KeyError("file");
    }
    tags := tags + [ScriptTag(staticUrl(entryData.file.value))];
    return Rendered(Join(Separator, tags));
  }

  // ---------------------------------------------------------------------
  // The tag list

  /** The i-th link is the link for the i-th CSS file, and there is one per file. */
  lemma {:induction false} LinksShape(staticUrl: string -> string, css: seq<string>)
    ensures |Links(staticUrl, css)| == |css|
    ensures forall i :: 0 <= i < |css| ==> Links(staticUrl, css)[i] == LinkTag(staticUrl(css[i]))
  {
    if css != [] {
      LinksShape(staticUrl, css[1..]);
    }
  }

  /**
   For an entry with a 'file' key: |css| + 1 tags, the links first and in
   manifest order, then the one script tag, last.
   */
  lemma EntryTagsShape(e: Entry, staticUrl: string -> string)
    requires e.file.Some?
    ensures |EntryTags(e, staticUrl)| == |CssFiles(e)| + 1
    ensures forall i :: 0 <= i < |CssFiles(e)| ==>
              EntryTags(e, staticUrl)[i] == LinkTag(staticUrl(CssFiles(e)[i]))
    ensures EntryTags(e, staticUrl)[|CssFiles(e)|] == ScriptTag(staticUrl(e.file.value))
    ensures forall i :: 0 <= i < |EntryTags(e, staticUrl)| ==>
              (IsScriptTag(EntryTags(e, staticUrl)[i]) <==> i == |CssFiles(e)|)
  {
    var css, tags := CssFiles(e), EntryTags(e, staticUrl);
    LinksShape(staticUrl, css);
    forall i | 0 <= i < |tags|
      ensures IsScriptTag(tags[i]) <==> i == |css|
    {
      if i < |css| {
        assert tags[i][1] == 'l';
      } else {
        assert tags[i][..7] == "<script";
      }
    }
  }

  // ---------------------------------------------------------------------
  // Joining and its inverse

  /** The joined string begins with the first part and ends with the last. */
  lemma {:induction false} JoinEnds(sep: string, parts: seq<string>)
    requires |parts| >= 1
    ensures parts[0] <= Join(sep, parts)
    ensures var j, last := Join(sep, parts), parts[|parts| - 1];
            |last| <= |j| && j[|j| - |last|..] == last
  {
    if |parts| > 1 {
      JoinEnds(sep, parts[1..]);
      var rest := Join(sep, parts[1..]);
      assert Join(sep, parts) == (parts[0] + sep) + rest;
    }
  }

  /** Occurrences of Separator in a concatenation: those of each half, plus one straddling the seam. */
  lemma {:induction false} CountConcat(a: string, b: string)
    ensures CountSeparators(a + b) ==
            CountSeparators(a) + CountSeparators(b) +
            (if |a| > 0 && |b| > 0 && a[|a| - 1] == '\n' && b[0] == ' ' then 1 else 0)
  {
    if |a| == 0 {
      assert a + b == b;
    } else if |a| == 1 {
      if |b| > 0 {
        assert (a + b)[1..] == b;
        assert (a + b)[..2] == [a[0], b[0]];
      }
    } else {
      assert (a + b)[1..] == a[1..] + b;
      assert (a + b)[..2] == a[..2];
      CountConcat(a[1..], b);
    }
  }

  /** Every separator the join inserts is one occurrence, and none straddles a seam. */
  lemma CountAround(a: string, b: string)
    ensures CountSeparators(a + Separator + b) == CountSeparators(a) + 1 + CountSeparators(b)
  {
    CountConcat(a, Separator);
    CountConcat(a + Separator, b);
  }

  /** Joining parts free of Separator yields exactly one separator fewer than parts. */
  lemma {:induction false} CountJoin(parts: seq<string>)
    requires |parts| >= 1
    requires forall i :: 0 <= i < |parts| ==> CountSeparators(parts[i]) == 0
    ensures CountSeparators(Join(Separator, parts)) == |parts| - 1
  {
    if |parts| > 1 {
      CountJoin(parts[1..]);
      CountAround(parts[0], Join(Separator, parts[1..]));
    }
  }

  /** A part free of Separator is read into the current piece as it is. */
  lemma {:induction false} SplitPlain(p: string, rest: string, current: string)
    requires CountSeparators(p) == 0
    requires rest == [] || rest[0] == '\n'
    ensures SplitFrom(p + rest, current) == SplitFrom(rest, current + p)
  {
    if p == [] {
      assert p + rest == rest;
      assert current + p == current;
    } else {
      var s := p + rest;
      if |s| >= 2 {
        assert s[..2] != Separator by {
          if |p| >= 2 {
            assert s[..2] == p[..2];
          } else {
            assert s[1] == rest[0];
          }
        }
      }
      assert s[1..] == p[1..] + rest;
      if |p| >= 2 {
        assert CountSeparators(p[1..]) == 0;
      }
      SplitPlain(p[1..], rest, current + [p[0]]);
      assert (current + [p[0]]) + p[1..] == current + p;
    }
  }

  /** Splitting undoes joining whenever no part contains Separator. */
  lemma {:induction false} SplitJoin(parts: seq<string>)
    requires |parts| >= 1
    requires forall i :: 0 <= i < |parts| ==> CountSeparators(parts[i]) == 0
    ensures SplitTags(Join(Separator, parts)) == parts
  {
    var p := parts[0];
    if |parts| == 1 {
      SplitPlain(p, "", "");
      assert p + "" == p;
      assert "" + p == p;
    } else {
      var tail := Join(Separator, parts[1..]);
      SplitPlain(p, Separator + tail, "");
      assert p + (Separator + tail) == Join(Separator, parts);
      assert "" + p == p;
      assert (Separator + tail)[2..] == tail;
      SplitJoin(parts[1..]);
      assert parts == [p] + parts[1..];
    }
  }

  // ---------------------------------------------------------------------
  // The rendered HTML

  /** A string without a newline holds no Separator. */
  lemma {:induction false} NoNewlineNoSeparator(s: string)
    requires forall i :: 0 <= i < |s| ==> s[i] != '\n'
    ensures CountSeparators(s) == 0
  {
    if |s| >= 2 {
      assert s[..2][0] == s[0];
      NoNewlineNoSeparator(s[1..]);
    }
  }

  /** No newline occurs in the fixed text of either tag. */
  lemma FixedTextHasNoNewline()
    ensures forall i :: 0 <= i < |LinkHead| ==> LinkHead[i] != '\n'
    ensures forall i :: 0 <= i < |LinkTail| ==> LinkTail[i] != '\n'
    ensures forall i :: 0 <= i < |ScriptHead| ==> ScriptHead[i] != '\n'
    ensures forall i :: 0 <= i < |ScriptTail| ==> ScriptTail[i] != '\n'
  {
  }

  lemma LinkTextHasNoSeparator()
    ensures CountSeparators(LinkHead) == 0 && CountSeparators(LinkTail) == 0
  {
    FixedTextHasNoNewline();
    NoNewlineNoSeparator(LinkHead);
    NoNewlineNoSeparator(LinkTail);
  }

  lemma ScriptTextHasNoSeparator()
    ensures CountSeparators(ScriptHead) == 0 && CountSeparators(ScriptTail) == 0
  {
    FixedTextHasNoNewline();
    NoNewlineNoSeparator(ScriptHead);
    NoNewlineNoSeparator(ScriptTail);
  }

  /** The fixed text around a URL adds no separator to a link tag. */
  lemma LinkTagSeparators(url: string)
    ensures CountSeparators(LinkTag(url)) == CountSeparators(url)
  {
    LinkTextHasNoSeparator();
    CountConcat(LinkHead, url);
    CountConcat(LinkHead + url, LinkTail);
  }

  /** The fixed text around a URL adds no separator to a script tag. */
  lemma ScriptTagSeparators(url: string)
    ensures CountSeparators(ScriptTag(url)) == CountSeparators(url)
  {
    ScriptTextHasNoSeparator();
    CountConcat(ScriptHead, url);
    CountConcat(ScriptHead + url, ScriptTail);
  }

  /**
   When no URL that `staticUrl` produces for the entry contains "\n ", the
   rendered HTML splits back into exactly the entry's tags, and it holds
   exactly |css| separators: one between each pair of consecutive tags,
   none before the first or after the last.
   */
  lemma RenderedSplitsIntoTags(e: Entry, staticUrl: string -> string)
    requires e.file.Some?
    requires CountSeparators(staticUrl(e.file.value)) == 0
    requires forall f :: f in CssFiles(e) ==> CountSeparators(staticUrl(f)) == 0
    ensures SplitTags(Join(Separator, EntryTags(e, staticUrl))) == EntryTags(e, staticUrl)
    ensures CountSeparators(Join(Separator, EntryTags(e, staticUrl))) == |CssFiles(e)|
  {
    var css, tags := CssFiles(e), EntryTags(e, staticUrl);
    EntryTagsShape(e, staticUrl);
    forall i | 0 <= i < |tags|
      ensures CountSeparators(tags[i]) == 0
    {
      if i < |css| {
        LinkTagSeparators(staticUrl(css[i]));
      } else {
        ScriptTagSeparators(staticUrl(e.file.value));
      }
    }
    SplitJoin(tags);
    CountJoin(tags);
  }

  /**
   The rendered HTML neither starts nor ends with Separator, whatever the
   URLs: it opens with the first tag's '<' and closes with the script tag's '>'.
   */
  lemma RenderedHasNoOuterSeparator(e: Entry, staticUrl: string -> string)
    requires e.file.Some?
    ensures var html := Join(Separator, EntryTags(e, staticUrl));
            |html| >= |Separator| && html[..|Separator|] != Separator &&
            html[|html| - |Separator|..] != Separator &&
            html[0] == '<' && html[|html| - 1] == '>'
  {
    var tags, html := EntryTags(e, staticUrl), Join(Separator, EntryTags(e, staticUrl));
    var last := tags[|tags| - 1];
    EntryTagsShape(e, staticUrl);
    JoinEnds(Separator, tags);
    assert tags[0][0] == '<' by {
      if |CssFiles(e)| > 0 { assert tags[0] == LinkHead + staticUrl(CssFiles(e)[0]) + LinkTail; }
      else { assert tags[0] == ScriptHead + staticUrl(e.file.value) + ScriptTail; }
    }
    assert last == ScriptHead + staticUrl(e.file.value) + ScriptTail;
    assert last[|last| - 1] == '>';
    assert html[0] == '<';
    assert html[|html| - 1] == last[|last| - 1];
  }

  /** Without CSS files the output is the script tag alone, with no separator. */
  lemma NoCssRendersScriptOnly(e: Entry, staticUrl: string -> string)
    requires e.file.Some? && CssFiles(e) == []
    ensures Join(Separator, EntryTags(e, staticUrl)) == ScriptTag(staticUrl(e.file.value))
  {
  }
}
