/** `list_comics_by_day`: for each recent entry, the newest image in its
    image directory, grouped by the day the entry was written, newest day
    first. */
module Gallery {
  import opened Wrappers
  import Text
  import Paths
  import Json
  import Database
  import Comic

  /** One directory entry as `read_dir` and `metadata` report it; a missing
      modification time reads as the epoch, 0. */
  datatype FileInfo = FileInfo(path: string, isFile: bool, modified: Option<int>)

  datatype ComicItem = ComicItem(entryId: string, imagePath: string, createdAt: string)
  datatype ComicsByDay = ComicsByDay(date: string, comics: seq<ComicItem>)

  /** The image chosen so far and its modification time. */
  datatype Candidate = Candidate(path: string, modified: int)

  const DefaultLimitDays := 120
  /** How many entries, newest first, are looked at. */
  const EntryLimit := 2000

  /** The day of a timestamp: everything before the first 'T'. */
  function DayOf(createdAt: string): string {
    Text.BeforeFirst(createdAt, 'T')
  }

  predicate IsImageExtension(ext: string) {
    Text.AsciiLower(ext) in {"png", "jpg", "jpeg", "webp"}
  }

  /** A regular file whose extension names an image format, in any case. */
  predicate IsImage(f: FileInfo) {
    f.isFile && Paths.Extension(f.path).Some? && IsImageExtension(Paths.Extension(f.path).value)
  }

  function Mtime(f: FileInfo): int {
    if f.modified.Some? then f.modified.value else 0
  }

  // ----- the newest image of a directory -----

  /** One step of the scan: an image strictly newer than the best so far
      replaces it; the first image always does. */
  function Consider(best: Option<Candidate>, f: FileInfo): Option<Candidate> {
    if !IsImage(f) then best
    else if best.Some? && Mtime(f) <= best.value.modified then best
    else Some(Candidate(f.path, Mtime(f)))
  }

  /** The scan over a listing, in listing order. */
  function NewestOf(files: seq<FileInfo>): Option<Candidate>
    decreases |files|
  {
    if files == [] then None
    else Consider(NewestOf(files[..|files| - 1]), files[|files| - 1])
  }

  /** `files[i]` is an image no older than any other, and strictly newer
      than every image listed before it. */
  predicate IsNewest(files: seq<FileInfo>, i: int) {
    && 0 <= i < |files| && IsImage(files[i])
    && (forall j :: 0 <= j < |files| && IsImage(files[j]) ==> Mtime(files[j]) <= Mtime(files[i]))
    && (forall j :: 0 <= j < i && IsImage(files[j]) ==> Mtime(files[j]) < Mtime(files[i]))
  }

  /** A later file that is no image, or no newer, keeps the choice. */
  lemma NewestKept(p: seq<FileInfo>, f: FileInfo, i: int)
    requires IsNewest(p, i) && (!IsImage(f) || Mtime(f) <= Mtime(p[i]))
    ensures IsNewest(p + [f], i)
  {
    var files := p + [f];
    assert forall j :: 0 <= j < |p| ==> files[j] == p[j];
  }

  /** A later image strictly newer than every earlier one is the choice. */
  lemma NewestReplaced(p: seq<FileInfo>, f: FileInfo)
    requires IsImage(f)
    requires forall j :: 0 <= j < |p| && IsImage(p[j]) ==> Mtime(p[j]) < Mtime(f)
    ensures IsNewest(p + [f], |p|)
  {
    var files := p + [f];
    assert forall j :: 0 <= j < |p| ==> files[j] == p[j];
  }

  /** The scan finds nothing exactly when the listing has no image, and
      otherwise finds the first of the newest images. */
  lemma {:induction false} NewestOfSpec(files: seq<FileInfo>)
    ensures NewestOf(files).None? <==> forall i :: 0 <= i < |files| ==> !IsImage(files[i])
    ensures NewestOf(files).Some? ==>
      exists i :: IsNewest(files, i) && NewestOf(files).value == Candidate(files[i].path, Mtime(files[i]))
    decreases |files|
  {
    if files != [] {
      var n := |files|;
      var p, f := files[..n - 1], files[n - 1];
      assert files == p + [f];
      NewestOfSpec(p);
      var b := NewestOf(p);
      assert NewestOf(files) == Consider(b, f);
      if b.Some? {
        var i :| IsNewest(p, i) && b.value == Candidate(p[i].path, Mtime(p[i]));
        if !IsImage(f) || Mtime(f) <= b.value.modified {
          NewestKept(p, f, i);
        } else {
          NewestReplaced(p, f);
        }
      } else if IsImage(f) {
        NewestReplaced(p, f);
      }
    }
  }

  /** The inner loop over one image directory. */
  method PickNewest(files: seq<FileInfo>) returns (best: Option<Candidate>)
    ensures best == NewestOf(files)
  {
    best := None;
    var i := 0;
    while i < |files|
      invariant i <= |files|
      invariant best == NewestOf(files[..i])
    {
      assert files[..i + 1][..i] == files[..i];
      var f := files[i];
      if IsImage(f) {
        var modified := Mtime(f);
        if best.Some? && modified <= best.value.modified {
        } else {
          best := Some(Candidate(f.path, modified));
        }
      }
      i := i + 1;
    }
    assert files[..i] == files;
  }

  // ----- the by-day map, ordered by date as a `BTreeMap` is -----

  /** Strictly before, in the byte order of `String`. */
  predicate Before(a: string, b: string) {
    Database.LexLe(a, b) && a != b
  }

  lemma BeforeTrans(a: string, b: string, c: string)
    requires Before(a, b) && Before(b, c)
    ensures Before(a, c)
  {
    Database.LexTrans(a, b, c);
    if a == c {
      Database.LexAntisym(a, b);
    }
  }

  lemma BeforeTotal(a: string, b: string)
    ensures a == b || Before(a, b) || Before(b, a)
  {
    Database.LexTotal(a, b);
  }

  /** Dates strictly ascending: the map's iteration order, no date twice. */
  predicate Ascending(groups: seq<ComicsByDay>) {
    forall i, j :: 0 <= i < j < |groups| ==> Before(groups[i].date, groups[j].date)
  }

  /** Every date in the map holds at least one comic. */
  predicate NonEmpty(groups: seq<ComicsByDay>) {
    forall i :: 0 <= i < |groups| ==> groups[i].comics != []
  }

  /** Every date comes strictly after `lo`. */
  predicate Above(lo: string, groups: seq<ComicsByDay>) {
    forall i :: 0 <= i < |groups| ==> Before(lo, groups[i].date)
  }

  /** The comics stored under a date; none when it is absent. */
  function Lookup(groups: seq<ComicsByDay>, day: string): seq<ComicItem> {
    if groups == [] then []
    else if groups[0].date == day then groups[0].comics
    else Lookup(groups[1..], day)
  }

  /** `by_day.entry(day).or_default().push(item)`. */
  function AddToDay(groups: seq<ComicsByDay>, day: string, item: ComicItem): seq<ComicsByDay> {
    if groups == [] then [ComicsByDay(day, [item])]
    else if groups[0].date == day then [groups[0].(comics := groups[0].comics + [item])] + groups[1..]
    else if Before(day, groups[0].date) then [ComicsByDay(day, [item])] + groups
    else [groups[0]] + AddToDay(groups[1..], day, item)
  }

  lemma {:induction false} LookupAbsent(groups: seq<ComicsByDay>, day: string)
    requires forall i :: 0 <= i < |groups| ==> groups[i].date != day
    ensures Lookup(groups, day) == []
  {
    if groups != [] {
      LookupAbsent(groups[1..], day);
    }
  }

  lemma {:induction false} LookupFinds(groups: seq<ComicsByDay>, k: int)
    requires Ascending(groups) && 0 <= k < |groups|
    ensures Lookup(groups, groups[k].date) == groups[k].comics
  {
    if k > 0 {
      assert groups[0].date != groups[k].date;
      LookupFinds(groups[1..], k - 1);
    }
  }

  lemma {:induction false} AddToDayAbove(groups: seq<ComicsByDay>, day: string, item: ComicItem, lo: string)
    requires Above(lo, groups) && Before(lo, day)
    ensures Above(lo, AddToDay(groups, day, item))
  {
    if groups != [] && groups[0].date != day && !Before(day, groups[0].date) {
      AddToDayAbove(groups[1..], day, item, lo);
    }
  }

  /** Adding an item keeps the dates ordered and non-empty, appends the
      item to its own date and leaves every other date alone. */
  lemma {:induction false} AddToDaySpec(groups: seq<ComicsByDay>, day: string, item: ComicItem)
    requires Ascending(groups) && NonEmpty(groups)
    ensures var r := AddToDay(groups, day, item);
      && Ascending(r) && NonEmpty(r)
      && forall d :: Lookup(r, d) == if d == day then Lookup(groups, d) + [item] else Lookup(groups, d)
  {
    var r := AddToDay(groups, day, item);
    if groups == [] {
    } else if groups[0].date == day {
      assert r[1..] == groups[1..];
      assert forall i :: 1 <= i < |r| ==> r[i] == groups[i];
      assert forall d :: d != day ==> Lookup(r, d) == Lookup(groups[1..], d);
    } else if Before(day, groups[0].date) {
      forall j | 0 <= j < |groups| ensures Before(day, groups[j].date) {
        if j > 0 {
          BeforeTrans(day, groups[0].date, groups[j].date);
        }
      }
      LookupAbsent(groups, day);
    } else {
      var rest := AddToDay(groups[1..], day, item);
      BeforeTotal(day, groups[0].date);
      AddToDaySpec(groups[1..], day, item);
      AddToDayAbove(groups[1..], day, item, groups[0].date);
      assert r == [groups[0]] + rest;
      assert forall d :: d != groups[0].date ==> Lookup(r, d) == Lookup(rest, d);
    }
  }

  // ----- entries to dated comics -----

  /** The comic an entry contributes, with its day: none when the
      timestamp has no day, the image directory is missing or holds no
      image. */
  function ItemOf(e: Database.EntryListItem, dataDir: string, dirs: string -> Option<seq<FileInfo>>)
    : (r: Option<(string, ComicItem)>)
    ensures var listing := dirs(Comic.ImagesDir(dataDir, e.id));
      r.Some? <==> DayOf(e.createdAt) != [] && listing.Some?
                   && exists i :: 0 <= i < |listing.value| && IsImage(listing.value[i])
    ensures r.Some? ==>
      (r.value.0 == DayOf(e.createdAt) && r.value.1.entryId == e.id && r.value.1.createdAt == e.createdAt)
    ensures r.Some? ==>
      (NewestOf(dirs(Comic.ImagesDir(dataDir, e.id)).value).Some?
       && r.value.1.imagePath == NewestOf(dirs(Comic.ImagesDir(dataDir, e.id)).value).value.path)
  {
    var day := DayOf(e.createdAt);
    var listing := dirs(Comic.ImagesDir(dataDir, e.id));
    if day == [] || listing.None? then None
    else
      NewestOfSpec(listing.value);
      match NewestOf(listing.value)
      case None => None
      case Some(c) => Some((day, ComicItem(e.id, c.path, e.createdAt)))
  }

  /** The map after the first entries, in list order. */
  function Grouped(es: seq<Database.EntryListItem>, dataDir: string, dirs: string -> Option<seq<FileInfo>>)
    : seq<ComicsByDay>
    decreases |es|
  {
    if es == [] then []
    else
      var g := Grouped(es[..|es| - 1], dataDir, dirs);
      match ItemOf(es[|es| - 1], dataDir, dirs)
      case None => g
      case Some((day, item)) => AddToDay(g, day, item)
  }

  /** The reference: the comics of the entries of one day, in list order. */
  function DayItems(es: seq<Database.EntryListItem>, day: string, dataDir: string,
                    dirs: string -> Option<seq<FileInfo>>): seq<ComicItem>
    decreases |es|
  {
    if es == [] then []
    else
      var rest := DayItems(es[..|es| - 1], day, dataDir, dirs);
      match ItemOf(es[|es| - 1], dataDir, dirs)
      case Some((d, item)) => if d == day then rest + [item] else rest
      case None => rest
  }

  /** The map holds, under each date, exactly that day's comics in list
      order, and no date without one. */
  lemma {:induction false} GroupedSpec(es: seq<Database.EntryListItem>, dataDir: string,
                                       dirs: string -> Option<seq<FileInfo>>)
    ensures var g := Grouped(es, dataDir, dirs);
      && Ascending(g) && NonEmpty(g)
      && forall d :: Lookup(g, d) == DayItems(es, d, dataDir, dirs)
    decreases |es|
  {
    if es != [] {
      var p := es[..|es| - 1];
      GroupedSpec(p, dataDir, dirs);
      match ItemOf(es[|es| - 1], dataDir, dirs)
      case None =>
      case Some((day, item)) =>
        AddToDaySpec(Grouped(p, dataDir, dirs), day, item);
    }
  }

  /** Each comic listed under a day was written on that day. */
  lemma {:induction false} DayItemsOfDay(es: seq<Database.EntryListItem>, day: string, dataDir: string,
                                         dirs: string -> Option<seq<FileInfo>>)
    ensures forall x :: x in DayItems(es, day, dataDir, dirs) ==> DayOf(x.createdAt) == day
    decreases |es|
  {
    if es != [] {
      DayItemsOfDay(es[..|es| - 1], day, dataDir, dirs);
    }
  }

  // ----- sorting and the day limit -----

  function Reverse<T>(s: seq<T>): (r: seq<T>)
    ensures |r| == |s| && forall i :: 0 <= i < |s| ==> r[i] == s[|s| - 1 - i]
  {
    if s == [] then [] else Reverse(s[1..]) + [s[0]]
  }

  /** `take(limit as usize)`: a negative limit wraps to a huge one, so
      everything is taken. */
  function Take<T>(s: seq<T>, limit: int): (r: seq<T>)
    ensures limit < 0 || limit >= |s| ==> r == s
    ensures 0 <= limit < |s| ==> r == s[..limit]
  {
    if limit < 0 || limit >= |s| then s else s[..limit]
  }

  /** What `list_comics_by_day` returns for the listed entries. */
  function ByDay(es: seq<Database.EntryListItem>, dataDir: string, dirs: string -> Option<seq<FileInfo>>,
                 limitDays: Option<int>): seq<ComicsByDay>
  {
    Take(Reverse(Grouped(es, dataDir, dirs)), if limitDays.Some? then limitDays.value else DefaultLimitDays)
  }

  /** Sorting the map's ascending dates newest first and keeping the
      first `limit`. */
  lemma NewestDays(g: seq<ComicsByDay>, limit: int)
    requires Ascending(g)
    ensures var r := Take(Reverse(g), limit);
      && |r| <= |g|
      && (limit >= 0 ==> |r| <= limit)
      && (|r| < |g| ==> |r| == limit)
      && (forall i :: 0 <= i < |r| ==> r[i] == g[|g| - 1 - i])
      && (forall i, j :: 0 <= i < j < |r| ==> Before(r[j].date, r[i].date))
  {
  }

  /** The days come newest first, no day twice and none empty; each holds
      exactly that day's comics in list order; at most `limit` days are
      kept. */
  lemma ByDaySpec(es: seq<Database.EntryListItem>, dataDir: string, dirs: string -> Option<seq<FileInfo>>,
                  limitDays: Option<int>)
    ensures var r := ByDay(es, dataDir, dirs, limitDays);
      var limit := if limitDays.Some? then limitDays.value else DefaultLimitDays;
      && (forall i, j :: 0 <= i < j < |r| ==> Before(r[j].date, r[i].date))
      && (forall i :: 0 <= i < |r| ==>
            r[i].comics != [] && r[i].comics == DayItems(es, r[i].date, dataDir, dirs))
      && (limit >= 0 ==> |r| <= limit)
  {
    var g := Grouped(es, dataDir, dirs);
    var limit := if limitDays.Some? then limitDays.value else DefaultLimitDays;
    GroupedSpec(es, dataDir, dirs);
    NewestDays(g, limit);
    var r := Take(Reverse(g), limit);
    assert ByDay(es, dataDir, dirs, limitDays) == r;
    forall i | 0 <= i < |r|
      ensures r[i].comics != [] && r[i].comics == DayItems(es, r[i].date, dataDir, dirs)
    {
      var k := |g| - 1 - i;
      LookupFinds(g, k);
      assert r[i] == g[k];
    }
  }

  /** A day with comics is left out only when `limit` newer days fill the
      list. */
  lemma ByDayComplete(es: seq<Database.EntryListItem>, dataDir: string, dirs: string -> Option<seq<FileInfo>>,
                      limitDays: Option<int>, d: string)
    requires DayItems(es, d, dataDir, dirs) != []
    ensures var r := ByDay(es, dataDir, dirs, limitDays);
      || (exists i :: 0 <= i < |r| && r[i].date == d)
      || (|r| == (if limitDays.Some? then limitDays.value else DefaultLimitDays)
          && forall i :: 0 <= i < |r| ==> Before(d, r[i].date))
  {
    var g := Grouped(es, dataDir, dirs);
    var limit := if limitDays.Some? then limitDays.value else DefaultLimitDays;
    GroupedSpec(es, dataDir, dirs);
    NewestDays(g, limit);
    var r := Take(Reverse(g), limit);
    if forall k :: 0 <= k < |g| ==> g[k].date != d {
      LookupAbsent(g, d);
    } else {
      var k :| 0 <= k < |g| && g[k].date == d;
      if |g| - 1 - k < |r| {
        assert r[|g| - 1 - k].date == d;
      }
    }
  }

  /** The command: the first `EntryLimit` entries newest first, the
      newest image of each one's image directory, grouped by day, newest
      day first, at most `limitDays` days (120 by default). `dirs` is the
      file system: the listing of a directory, `None` when it is missing
      or unreadable. */
  method ListComicsByDay(db: Database.Db, order: seq<string>, parse: string -> Option<Json.Json>,
                         dataDir: string, dirs: string -> Option<seq<FileInfo>>, limitDays: Option<int>)
    returns (r: Result<seq<ComicsByDay>, string>)
    requires Database.NewestFirst(db.entries, order)
    ensures var listed := db.ListEntries(Some(Database.ListParams(Some(EntryLimit), Some(0))), order, parse);
      r == Ok(ByDay(listed.value, dataDir, dirs, limitDays))
  {
    var limit := if limitDays.Some? then limitDays.value else DefaultLimitDays;
    var entries := db.ListEntries(Some(Database.ListParams(Some(EntryLimit), Some(0))), order, parse).value;
    var groups := GroupEntries(entries, dataDir, dirs);
    r := Ok(Take(Reverse(groups), limit));
  }

  /** The loop over the entries, filling the by-day map. */
  /** One more entry: its comic, if any, is added to the map. */
  lemma GroupedSnoc(es: seq<Database.EntryListItem>, i: nat, dataDir: string,
                    dirs: string -> Option<seq<FileInfo>>)
    requires i < |es|
    ensures Grouped(es[..i + 1], dataDir, dirs)
      == match ItemOf(es[i], dataDir, dirs)
         case None => Grouped(es[..i], dataDir, dirs)
         case Some((day, item)) => AddToDay(Grouped(es[..i], dataDir, dirs), day, item)
  {
    assert es[..i + 1][..i] == es[..i];
  }

  method GroupEntries(entries: seq<Database.EntryListItem>, dataDir: string, dirs: string -> Option<seq<FileInfo>>)
    returns (groups: seq<ComicsByDay>)
    ensures groups == Grouped(entries, dataDir, dirs)
  {
    groups := [];
    var i := 0;
    while i < |entries|
      invariant i <= |entries|
      invariant groups == Grouped(entries[..i], dataDir, dirs)
    {
      GroupedSnoc(entries, i, dataDir, dirs);
      var e := entries[i];
      ghost var step := ItemOf(e, dataDir, dirs);
      var day := DayOf(e.createdAt);
      if day != [] {
        var listing := dirs(Comic.ImagesDir(dataDir, e.id));
        if listing.Some? {
          var best := PickNewest(listing.value);
          if best.Some? {
            assert step == Some((day, ComicItem(e.id, best.value.path, e.createdAt)));
            groups := AddToDay(groups, day, ComicItem(e.id, best.value.path, e.createdAt));
          } else {
            assert step.None?;
          }
        } else {
          assert step.None?;
        }
      } else {
        assert step.None?;
      }
      i := i + 1;
    }
    assert entries[..i] == entries;
  }
}
