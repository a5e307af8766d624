/** The journal's entry store: the `entries`, `panels` and `storyboards`
    tables as maps from primary key to row, and the rules the queries
    apply when reading and writing them. Strings compare as SQLite's
    BINARY collation does (code point by code point, which is the order of
    their UTF-8 bytes). */
module Database {
  import opened Wrappers
  import opened Bytes
  import Text
  import Utf8
  import opened Json

  /** What a caller hands to `upsert_entry`. */
  datatype EntryUpsert = EntryUpsert(id: Option<string>, bodyCipher: seq<Byte>, mood: Option<string>,
                                     tags: Option<Json>)

  /** A stored `entries` row; the tags are JSON text. */
  datatype Row = Row(createdAt: string, updatedAt: string, bodyCipher: seq<Byte>, mood: Option<string>,
                     tags: Option<string>, embedding: Option<seq<Byte>>)

  /** An entry as read back, with its tags parsed. */
  datatype Entry = Entry(id: string, createdAt: string, updatedAt: string, bodyCipher: seq<Byte>,
                         mood: Option<string>, tags: Option<Json>, embedding: Option<seq<Byte>>)

  /** A row of `list_entries`. */
  datatype EntryListItem = EntryListItem(id: string, createdAt: string, updatedAt: string,
                                         bodyPreview: Option<string>, mood: Option<string>, tags: Option<Json>)

  datatype ListParams = ListParams(limit: Option<int>, offset: Option<int>)

  /** The dependent rows; only the owning entry matters here. */
  datatype Panel = Panel(entryId: string, idx: int, imagePath: Option<string>)
  datatype Storyboard = Storyboard(entryId: string, model: string, createdAt: string)

  /** sqlx's message for a `fetch_one` that finds nothing. */
  const NoRows := "no rows returned by a query that expected to return at least one row"

  const DefaultLimit := 100
  const PreviewChars := 50

  // ----- tags -----

  /** Stored tags read back: text that does not parse gives no tags. */
  function ReadTags(text: Option<string>, parse: string -> Option<Json>): (r: Option<Json>)
    ensures text.None? ==> r.None?
  {
    if text.Some? then parse(text.value) else None
  }

  function WriteTags(tags: Option<Json>, serialize: Json -> string): (r: Option<string>)
    ensures r.Some? <==> tags.Some?
  {
    if tags.Some? then Some(serialize(tags.value)) else None
  }

  /** Tags survive storage whenever the parser reads back what the
      serializer wrote. */
  lemma TagsRoundTrip(tags: Option<Json>, serialize: Json -> string, parse: string -> Option<Json>)
    requires forall j :: parse(serialize(j)) == Some(j)
    ensures ReadTags(WriteTags(tags, serialize), parse) == tags
  {
  }

  // ----- upsert -----

  /** The row `upsert_entry` leaves under `id`: a new row is created and
      updated now, with no embedding; an existing row keeps its creation
      time and embedding and takes everything else from the upsert. */
  function UpsertRow(rows: map<string, Row>, id: string, up: EntryUpsert, now: string,
                     serialize: Json -> string): (r: Row)
  {
    var tags := WriteTags(up.tags, serialize);
    if id in rows then Row(rows[id].createdAt, now, up.bodyCipher, up.mood, tags, rows[id].embedding)
    else Row(now, now, up.bodyCipher, up.mood, tags, None)
  }

  lemma UpsertNew(rows: map<string, Row>, id: string, up: EntryUpsert, now: string, serialize: Json -> string)
    requires id !in rows
    ensures var r := UpsertRow(rows, id, up, now, serialize);
      r.createdAt == now && r.updatedAt == now && r.embedding.None?
  {
  }

  /** Upserting twice is upserting the second time: the creation time
      and embedding of the first stay. */
  lemma UpsertTwice(rows: map<string, Row>, id: string, up1: EntryUpsert, up2: EntryUpsert, t1: string,
                    t2: string, serialize: Json -> string)
    ensures var rows1 := rows[id := UpsertRow(rows, id, up1, t1, serialize)];
      var r := UpsertRow(rows1, id, up2, t2, serialize);
      r == UpsertRow(rows, id, up2, t2, serialize).(createdAt := if id in rows then rows[id].createdAt else t1)
  {
  }

  // ----- body preview -----

  /** The list's preview of a body: none unless it is UTF-8; otherwise its
      first 50 characters trimmed, followed by "..." when the body is
      longer than 50 BYTES. */
  function BodyPreview(cipher: seq<Byte>): (r: Option<string>)
    ensures r.None? <==> Utf8.Decode(cipher).Err?
  {
    match Utf8.Decode(cipher)
    case Err(_) => None
    case Ok(text) =>
      var preview := if |text| <= PreviewChars then text else text[..PreviewChars];
      if |cipher| > PreviewChars then Some(Text.Trim(preview) + "...") else Some(Text.Trim(preview))
  }

  /** A body of at most 50 bytes is shown whole, trimmed; a body of more
      than 50 characters is cut and marked. */
  lemma PreviewOfText(s: string)
    ensures var b := Utf8.Encode(s);
      && (|b| <= PreviewChars ==> BodyPreview(b) == Some(Text.Trim(s)))
      && (|s| > PreviewChars ==> BodyPreview(b) == Some(Text.Trim(s[..PreviewChars]) + "..."))
  {
    Utf8.DecodeEncode(s);
  }

  /** The byte count decides the ellipsis: a body of at most 50 characters
      but more than 50 bytes is shown whole and still marked as cut. */
  lemma PreviewMarksUncut(s: string)
    requires |s| <= PreviewChars < |Utf8.Encode(s)|
    ensures BodyPreview(Utf8.Encode(s)) == Some(Text.Trim(s) + "...")
  {
    Utf8.DecodeEncode(s);
  }

  /** Twenty-six copies of 'é' are 52 bytes. */
  lemma {:induction false} TwoByteLength(s: string)
    requires forall i :: 0 <= i < |s| ==> s[i] == 'é'
    ensures |Utf8.Encode(s)| == 2 * |s|
  {
    if s != [] {
      TwoByteLength(s[1..]);
    }
  }

  lemma PreviewQuirkExample()
    ensures var s := seq(26, _ => 'é');
      BodyPreview(Utf8.Encode(s)) == Some(s + "...")
  {
    var s := seq(26, _ => 'é');
    TwoByteLength(s);
    PreviewMarksUncut(s);
    Text.TrimNothing(s);
  }

  // ----- paging -----

  /** `LIMIT limit OFFSET offset` as SQLite applies it: a negative offset
      counts as none, a negative limit as no limit. */
  function Start(n: nat, offset: int): (k: nat)
    ensures k <= n
  {
    if offset <= 0 then 0 else if offset >= n then n else offset
  }

  function Window<T>(s: seq<T>, limit: int, offset: int): (r: seq<T>)
    ensures Start(|s|, offset) + |r| <= |s| && r == s[Start(|s|, offset)..Start(|s|, offset) + |r|]
    ensures limit >= 0 ==> |r| <= limit
    ensures limit < 0 && offset <= 0 ==> r == s
    ensures 0 <= offset <= |s| && 0 <= limit <= |s| - offset ==> r == s[offset..offset + limit]
    ensures limit < 0 || limit >= |s| - Start(|s|, offset) ==> r == s[Start(|s|, offset)..]
  {
    var rest := s[Start(|s|, offset)..];
    if limit < 0 || limit >= |rest| then rest else rest[..limit]
  }

  /** Consecutive pages: the page after `n` rows from `k` continues it. */
  lemma WindowPages<T>(s: seq<T>, n: nat, k: nat)
    ensures Window(s, n, k) + Window(s, n, k + n) == Window(s, 2 * n, k)
  {
    var a := if k >= |s| then |s| else k;
    var b := if k + n >= |s| then |s| else k + n;
    var c := if k + 2 * n >= |s| then |s| else k + 2 * n;
    assert Window(s, n, k) == s[a..b];
    assert Window(s, n, k + n) == s[b..c];
    assert Window(s, 2 * n, k) == s[a..c];
  }

  /** The defaults: the first 100 rows. */
  function Limit(params: Option<ListParams>): int {
    if params.Some? && params.value.limit.Some? then params.value.limit.value else DefaultLimit
  }

  function Offset(params: Option<ListParams>): int {
    if params.Some? && params.value.offset.Some? then params.value.offset.value else 0
  }

  lemma DefaultPage<T>(s: seq<T>)
    ensures Window(s, Limit(None), Offset(None)) == if |s| <= DefaultLimit then s else s[..DefaultLimit]
  {
  }

  // ----- order -----

  /** BINARY collation: `a` sorts no later than `b`. */
  predicate LexLe(a: string, b: string) {
    if a == [] then true
    else if b == [] then false
    else if a[0] != b[0] then a[0] < b[0]
    else LexLe(a[1..], b[1..])
  }

  lemma {:induction false} LexRefl(a: string)
    ensures LexLe(a, a)
  {
    if a != [] {
      LexRefl(a[1..]);
    }
  }

  lemma {:induction false} LexTotal(a: string, b: string)
    ensures LexLe(a, b) || LexLe(b, a)
  {
    if a != [] && b != [] && a[0] == b[0] {
      LexTotal(a[1..], b[1..]);
    }
  }

  lemma {:induction false} LexTrans(a: string, b: string, c: string)
    requires LexLe(a, b) && LexLe(b, c)
    ensures LexLe(a, c)
  {
    if a != [] && b != [] && c != [] && a[0] == b[0] && b[0] == c[0] {
      LexTrans(a[1..], b[1..], c[1..]);
    }
  }

  lemma {:induction false} LexAntisym(a: string, b: string)
    requires LexLe(a, b) && LexLe(b, a)
    ensures a == b
  {
    if a != [] && b != [] {
      LexAntisym(a[1..], b[1..]);
      assert a == [a[0]] + a[1..] && b == [b[0]] + b[1..];
    }
  }

  /** `order` is what `ORDER BY created_at DESC` returns for `rows`: every
      key once, newest first. Rows created at the same instant may come in
      any order. */
  predicate NewestFirst(rows: map<string, Row>, order: seq<string>) {
    && (forall i :: 0 <= i < |order| ==> order[i] in rows)
    && (forall k :: k in rows ==> k in order)
    && (forall i, j :: 0 <= i < j < |order| ==> order[i] != order[j])
    && (forall i, j :: 0 <= i < j < |order| ==> LexLe(rows[order[j]].createdAt, rows[order[i]].createdAt))
  }

  /** Some key whose row is newest. */
  lemma {:induction false} NewestExists(rows: map<string, Row>, keys: set<string>)
    requires keys != {} && keys <= rows.Keys
    ensures exists k :: k in keys && forall o :: o in keys ==> LexLe(rows[o].createdAt, rows[k].createdAt)
  {
    var x :| x in keys;
    if keys == {x} {
      assert forall o :: o in keys ==> o == x;
      LexRefl(rows[x].createdAt);
    } else {
      NewestExists(rows, keys - {x});
      var k :| k in keys - {x} && forall o :: o in keys - {x} ==> LexLe(rows[o].createdAt, rows[k].createdAt);
      LexTotal(rows[x].createdAt, rows[k].createdAt);
      if LexLe(rows[x].createdAt, rows[k].createdAt) {
        assert forall o :: o in keys ==> LexLe(rows[o].createdAt, rows[k].createdAt);
      } else {
        forall o | o in keys ensures LexLe(rows[o].createdAt, rows[x].createdAt) {
          if o != x {
            LexTrans(rows[o].createdAt, rows[k].createdAt, rows[x].createdAt);
          } else {
            LexRefl(rows[x].createdAt);
          }
        }
      }
    }
  }

  /** A newest row followed by a listing of the others is a listing. */
  lemma PrependNewest(rows: map<string, Row>, k: string, tail: seq<string>)
    requires k in rows && forall o :: o in rows ==> LexLe(rows[o].createdAt, rows[k].createdAt)
    requires NewestFirst(rows - {k}, tail)
    ensures NewestFirst(rows, [k] + tail)
  {
    var rest := rows - {k};
    var order := [k] + tail;
    assert forall i :: 0 < i < |order| ==> order[i] == tail[i - 1] && order[i] in rest;
    forall i, j | 0 <= i < j < |order|
      ensures order[i] != order[j]
      ensures LexLe(rows[order[j]].createdAt, rows[order[i]].createdAt)
    {
      if i > 0 {
        assert rows[order[i]] == rest[order[i]] && rows[order[j]] == rest[order[j]];
      }
    }
    forall o | o in rows ensures o in order {
      if o != k { assert o in rest; }
    }
  }

  /** Every table has a newest-first listing. */
  lemma {:induction false} NewestFirstExists(rows: map<string, Row>)
    ensures exists order :: NewestFirst(rows, order)
    decreases |rows.Keys|
  {
    if rows.Keys != {} {
      NewestExists(rows, rows.Keys);
      var k :| k in rows && forall o :: o in rows ==> LexLe(rows[o].createdAt, rows[k].createdAt);
      var rest := rows - {k};
      assert rest.Keys == rows.Keys - {k};
      NewestFirstExists(rest);
      var tail :| NewestFirst(rest, tail);
      PrependNewest(rows, k, tail);
    } else {
      assert NewestFirst(rows, []);
    }
  }

  // ----- the tables -----

  class Db {
    var entries: map<string, Row>
    var panels: map<string, Panel>
    var storyboards: map<string, Storyboard>

    constructor()
      ensures entries == map[] && panels == map[] && storyboards == map[]
    {
      entries := map[];
      panels := map[];
      storyboards := map[];
    }

    /** `get_entry`: the stored row with its tags parsed, or sqlx's
        no-rows error. */
    function GetEntry(id: string, parse: string -> Option<Json>): (r: Result<Entry, string>)
      reads this
      ensures r.Ok? <==> id in entries
      ensures r.Err? ==> r.error == NoRows
      ensures r.Ok? ==> (r.value.id == id && r.value.createdAt == entries[id].createdAt
        && r.value.updatedAt == entries[id].updatedAt && r.value.bodyCipher == entries[id].bodyCipher
        && r.value.embedding == entries[id].embedding)
      ensures r.Ok? ==> r.value.mood == entries[id].mood && r.value.tags == ReadTags(entries[id].tags, parse)
    {
      if id !in entries then Err(NoRows)
      else
        var row := entries[id];
        Ok(Entry(id, row.createdAt, row.updatedAt, row.bodyCipher, row.mood, ReadTags(row.tags, parse), row.embedding))
    }

    /** `upsert_entry`: store the row under the given id, or under a fresh
        one when none is given, and read it back. */
    method UpsertEntry(up: EntryUpsert, freshId: string, now: string, serialize: Json -> string,
                       parse: string -> Option<Json>) returns (r: Result<Entry, string>)
      modifies this
      ensures var id := up.id.GetOr(freshId);
        entries == old(entries)[id := UpsertRow(old(entries), id, up, now, serialize)]
      ensures panels == old(panels) && storyboards == old(storyboards)
      ensures r == GetEntry(up.id.GetOr(freshId), parse)
      ensures r.Ok? && r.value.id == up.id.GetOr(freshId) && r.value.updatedAt == now
      ensures r.Ok? && r.value.bodyCipher == up.bodyCipher && r.value.mood == up.mood
    {
      var id := up.id.GetOr(freshId);
      entries := entries[id := UpsertRow(entries, id, up, now, serialize)];
      r := GetEntry(id, parse);
    }

    /** `get_entry_body`: the body as text, or why it could not be read. */
    function GetEntryBody(id: string): (r: Result<string, string>)
      reads this
      ensures r.Ok? <==> id in entries && Utf8.Decode(entries[id].bodyCipher).Ok?
      ensures r.Ok? ==> Utf8.Encode(r.value) == entries[id].bodyCipher
      ensures id !in entries ==> r == Err("db: " + NoRows)
      ensures r.Err? && id in entries ==> Text.StartsWith(r.error, "utf8: ")
    {
      if id !in entries then Err("db: " + NoRows)
      else
        match Utf8.Decode(entries[id].bodyCipher)
        case Err(e) => Err("utf8: " + Utf8.ErrorText(e))
        case Ok(text) =>
          Utf8.EncodeDecode(entries[id].bodyCipher);
          Ok(text)
    }

    /** The item `list_entries` builds from a row. */
    static function Item(id: string, row: Row, parse: string -> Option<Json>): EntryListItem {
      EntryListItem(id, row.createdAt, row.updatedAt, BodyPreview(row.bodyCipher), row.mood, ReadTags(row.tags, parse))
    }

    /** `list_entries`: the page of the newest-first listing `order` that
        the parameters select. */
    function ListEntries(params: Option<ListParams>, order: seq<string>, parse: string -> Option<Json>)
      : (r: Result<seq<EntryListItem>, string>)
      reads this
      requires NewestFirst(entries, order)
      ensures r.Ok?
      ensures var page := Window(order, Limit(params), Offset(params));
        && |r.value| == |page|
        && forall i :: 0 <= i < |page| ==> r.value[i] == Item(page[i], entries[page[i]], parse)
      ensures forall i, j :: 0 <= i < j < |r.value| ==> LexLe(r.value[j].createdAt, r.value[i].createdAt)
    {
      var page := Window(order, Limit(params), Offset(params));
      var rows := entries;
      var items := seq(|page|, i requires 0 <= i < |page| && page[i] in rows => Item(page[i], rows[page[i]], parse));
      var a := Start(|order|, Offset(params));
      assert forall i :: 0 <= i < |page| ==> page[i] == order[a + i];
      Ok(items)
    }

    /** `delete_entry`: the entry's panels, then its storyboards, then the
        entry itself; deleting an absent entry succeeds too. */
    method DeleteEntry(id: string) returns (r: Result<(), string>)
      modifies this
      ensures r == Ok(())
      ensures panels == PanelsWithout(old(panels), id)
      ensures storyboards == StoryboardsWithout(old(storyboards), id)
      ensures entries == old(entries) - {id}
    {
      panels := PanelsWithout(panels, id);
      storyboards := StoryboardsWithout(storyboards, id);
      entries := entries - {id};
      r := Ok(());
    }
  }

  /** The panels of other entries. */
  function PanelsWithout(ps: map<string, Panel>, id: string): (r: map<string, Panel>)
    ensures forall k :: k in r <==> k in ps && ps[k].entryId != id
    ensures forall k :: k in r ==> r[k] == ps[k]
  {
    map k | k in ps && ps[k].entryId != id :: ps[k]
  }

  /** The storyboards of other entries. */
  function StoryboardsWithout(ss: map<string, Storyboard>, id: string): (r: map<string, Storyboard>)
    ensures forall k :: k in r <==> k in ss && ss[k].entryId != id
    ensures forall k :: k in r ==> r[k] == ss[k]
  {
    map k | k in ss && ss[k].entryId != id :: ss[k]
  }

  /** Deleting an entry twice is deleting it once, and deleting two
      entries does not depend on the order. */
  lemma DeleteIdempotent(ps: map<string, Panel>, ss: map<string, Storyboard>, a: string, b: string)
    ensures PanelsWithout(PanelsWithout(ps, a), a) == PanelsWithout(ps, a)
    ensures StoryboardsWithout(StoryboardsWithout(ss, a), a) == StoryboardsWithout(ss, a)
    ensures PanelsWithout(PanelsWithout(ps, a), b) == PanelsWithout(PanelsWithout(ps, b), a)
  {
  }
}
