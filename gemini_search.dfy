/** The best-effort extractors of the Gemini client: a depth-first search
    of a JSON reply for an image payload, or for an http(s) file URI. At
    each object a fixed list of direct places is tried first; only when
    none of them yields a string does the search descend into the
    children, array items and object values in order. */
module GeminiSearch {
  import opened Wrappers
  import Text
  import opened Json

  /** What is searched for: an image payload (base64 text or a data URI),
      or an http(s) URI to fetch the image from. */
  datatype Target = Image | HttpUri

  predicate IsHttp(u: string) {
    Text.StartsWith(u, "http://") || Text.StartsWith(u, "https://")
  }

  /** What the target accepts: any non-empty string for images, a string
      with an http(s) scheme for URIs. */
  predicate Accepts(t: Target, u: string) {
    if t == Image then u != [] else IsHttp(u)
  }

  /** `inline.get("data").and_then(as_str)`, when non-empty. */
  function InlinePayload(inline: Option<Json>): (r: Option<string>)
    ensures r.Some? ==> r.value != []
  {
    if inline.None? then None
    else
      match GetStr(inline.value, "data")
      case Some(d) => if d != [] then Some(d) else None
      case None => None
  }

  /** `media[i].inlineData` (or, only when that key is absent,
      `media[i].inline_data`) `.data`, for the first item that has one. */
  function MediaPayload(media: seq<Json>): (r: Option<string>)
    ensures r.Some? ==> r.value != []
  {
    if media == [] then None
    else
      var inline := Get(media[0], "inlineData").Or(Get(media[0], "inline_data"));
      match InlinePayload(inline)
      case Some(d) => Some(d)
      case None => MediaPayload(media[1..])
  }

  /** The first string element of `arr` that the target accepts. */
  function FirstAccepted(t: Target, arr: seq<Json>): (r: Option<string>)
    ensures r.Some? ==> Accepts(t, r.value)
  {
    if arr == [] then None
    else if arr[0].Str? && Accepts(t, arr[0].s) then Some(arr[0].s)
    else FirstAccepted(t, arr[1..])
  }

  /** `v.get(key).and_then(as_array)`, searched with `FirstAccepted`. */
  function UriList(t: Target, v: Json, key: string): (r: Option<string>)
    ensures r.Some? ==> Accepts(t, r.value)
  {
    match GetArray(v, key)
    case Some(arr) => FirstAccepted(t, arr)
    case None => None
  }

  /** `fd.get("fileUri").or_else(|| fd.get("file_uri")).and_then(as_str)`,
      kept when it is a data URI (images) or an http(s) URI. */
  function FileUri(t: Target, fd: Option<Json>): (r: Option<string>)
    ensures r.Some? ==> Accepts(t, r.value)
    ensures r.Some? && t == Image ==> Text.StartsWith(r.value, "data:")
  {
    if fd.None? then None
    else
      var u := AsStr(Get(fd.value, "fileUri").Or(Get(fd.value, "file_uri")));
      if u.None? then None
      else if t == Image && Text.StartsWith(u.value, "data:") then u
      else if t == HttpUri && IsHttp(u.value) then u
      else None
  }

  /** The direct places of one node, in priority order. For images:
      `inlineData`, `inline_data`, `media[]`, `dataUris`, `data_uris`,
      then `fileData`/`file_data` data URIs. For URIs: `fileData`,
      `file_data`, then `dataUris`, `data_uris`. Only objects have any. */
  function Direct(t: Target, v: Json): (r: Option<string>)
    ensures r.Some? ==> v.Obj? && Accepts(t, r.value)
  {
    if !v.Obj? then None
    else if t == Image then
      InlinePayload(Get(v, "inlineData"))
        .Or(InlinePayload(Get(v, "inline_data")))
        .Or(match GetArray(v, "media") case Some(m) => MediaPayload(m) case None => None)
        .Or(UriList(t, v, "dataUris"))
        .Or(UriList(t, v, "data_uris"))
        .Or(FileUri(t, Get(v, "fileData")))
        .Or(FileUri(t, Get(v, "file_data")))
    else
      FileUri(t, Get(v, "fileData"))
        .Or(FileUri(t, Get(v, "file_data")))
        .Or(UriList(t, v, "dataUris"))
        .Or(UriList(t, v, "data_uris"))
  }

  /** The recursive search: the node's direct places, then its children
      depth-first, the first hit winning. */
  function Search(t: Target, v: Json): (r: Option<string>)
    ensures r.Some? ==> Accepts(t, r.value)
    decreases v, 1
  {
    match Direct(t, v)
    case Some(s) => Some(s)
    case None =>
      match v
      case Arr(items) => SearchItems(t, items)
      case Obj(fs) => SearchFields(t, fs)
      case _ => None
  }

  function SearchItems(t: Target, items: seq<Json>): (r: Option<string>)
    ensures r.Some? ==> Accepts(t, r.value)
    decreases items, 0
  {
    if items == [] then None
    else
      match Search(t, items[0])
      case Some(s) => Some(s)
      case None => SearchItems(t, items[1..])
  }

  function SearchFields(t: Target, fs: seq<Field>): (r: Option<string>)
    ensures r.Some? ==> Accepts(t, r.value)
    decreases fs, 0
  {
    if fs == [] then None
    else
      match Search(t, fs[0].val)
      case Some(s) => Some(s)
      case None => SearchFields(t, fs[1..])
  }

  /** `find_image_data`. */
  function FindImageData(v: Json): (r: Option<string>)
    ensures r.Some? ==> r.value != []
  {
    Search(Image, v)
  }

  /** `find_http_uri`. */
  function FindHttpUri(v: Json): (r: Option<string>)
    ensures r.Some? ==> IsHttp(r.value)
  {
    Search(HttpUri, v)
  }

  // A reference definition of the search: the nodes of the tree in
  // preorder, and the first of them whose direct places yield a string.

  function Nodes(v: Json): (r: seq<Json>)
    ensures |r| > 0 && r[0] == v
    decreases v, 1
  {
    [v] + match v
          case Arr(items) => ItemNodes(items)
          case Obj(fs) => FieldNodes(fs)
          case _ => []
  }

  function ItemNodes(items: seq<Json>): seq<Json>
    decreases items, 0
  {
    if items == [] then [] else Nodes(items[0]) + ItemNodes(items[1..])
  }

  function FieldNodes(fs: seq<Field>): seq<Json>
    decreases fs, 0
  {
    if fs == [] then [] else Nodes(fs[0].val) + FieldNodes(fs[1..])
  }

  /** The direct hit of the first node that has one. */
  function FirstDirect(t: Target, ns: seq<Json>): Option<string> {
    if ns == [] then None else Direct(t, ns[0]).Or(FirstDirect(t, ns[1..]))
  }

  /** `FirstDirect` names the earliest node with a direct hit, and is
      `None` exactly when no node has one. */
  lemma {:induction false} FirstDirectIsEarliest(t: Target, ns: seq<Json>)
    ensures FirstDirect(t, ns).Some? ==>
              exists i :: 0 <= i < |ns| && Direct(t, ns[i]) == FirstDirect(t, ns)
                          && forall j :: 0 <= j < i ==> Direct(t, ns[j]).None?
    ensures FirstDirect(t, ns).None? <==> forall i :: 0 <= i < |ns| ==> Direct(t, ns[i]).None?
  {
    if ns != [] {
      FirstDirectIsEarliest(t, ns[1..]);
      var r := FirstDirect(t, ns);
      if Direct(t, ns[0]).Some? {
        assert Direct(t, ns[0]) == r;
      } else if r.Some? {
        var i :| 0 <= i < |ns| - 1 && Direct(t, ns[1..][i]) == r
                 && forall j :: 0 <= j < i ==> Direct(t, ns[1..][j]).None?;
        assert Direct(t, ns[i + 1]) == r;
        forall j | 0 <= j < i + 1
          ensures Direct(t, ns[j]).None?
        {
          if j > 0 { assert ns[j] == ns[1..][j - 1]; }
        }
      } else {
        forall i | 0 <= i < |ns|
          ensures Direct(t, ns[i]).None?
        {
          if i > 0 { assert ns[i] == ns[1..][i - 1]; }
        }
      }
    }
  }

  lemma {:induction false} FirstDirectAppend(t: Target, a: seq<Json>, b: seq<Json>)
    ensures FirstDirect(t, a + b) == FirstDirect(t, a).Or(FirstDirect(t, b))
  {
    if a != [] {
      assert (a + b)[1..] == a[1..] + b;
      FirstDirectAppend(t, a[1..], b);
    } else {
      assert a + b == b;
    }
  }

  /** The search finds exactly the first node, in preorder, whose direct
      places yield a string: depth-first, first match wins. */
  lemma {:induction false} SearchIsFirstInPreorder(t: Target, v: Json)
    ensures Search(t, v) == FirstDirect(t, Nodes(v))
    decreases v, 1
  {
    var ns := Nodes(v);
    assert ns[1..] == match v
                      case Arr(items) => ItemNodes(items)
                      case Obj(fs) => FieldNodes(fs)
                      case _ => [];
    match v
    case Arr(items) => SearchItemsIsFirst(t, items);
    case Obj(fs) => SearchFieldsIsFirst(t, fs);
    case _ =>
  }

  lemma {:induction false} SearchItemsIsFirst(t: Target, items: seq<Json>)
    ensures SearchItems(t, items) == FirstDirect(t, ItemNodes(items))
    decreases items, 0
  {
    if items != [] {
      SearchIsFirstInPreorder(t, items[0]);
      SearchItemsIsFirst(t, items[1..]);
      FirstDirectAppend(t, Nodes(items[0]), ItemNodes(items[1..]));
    }
  }

  lemma {:induction false} SearchFieldsIsFirst(t: Target, fs: seq<Field>)
    ensures SearchFields(t, fs) == FirstDirect(t, FieldNodes(fs))
    decreases fs, 0
  {
    if fs != [] {
      SearchIsFirstInPreorder(t, fs[0].val);
      SearchFieldsIsFirst(t, fs[1..]);
      FirstDirectAppend(t, Nodes(fs[0].val), FieldNodes(fs[1..]));
    }
  }
}
