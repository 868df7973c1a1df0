/**
 * The media scanner: choosing the video sub-folder of a mounted drive,
 * keeping the playable entries of a directory listing, and ordering them
 * priority group first, each group by name.
 */
module MediaScanner {
  import opened Wrappers
  import opened FileNames

  /** A directory entry as `File.listFiles()` reports it. */
  datatype FileEntry = FileEntry(name: string, isFile: bool, length: int)

  const PriorityExtensions: seq<string> := ["mp4", "mkv", "m4v", "webm"]
  const OtherExtensions: seq<string> := ["avi", "mov", "wmv", "flv", "3gp"]
  const AllExtensions: seq<string> := PriorityExtensions + OtherExtensions

  /**
   * The lower-cased extension the scanner classifies an entry by: it has no
   * '.' and no upper-case ASCII letter, and is empty for a name without '.'.
   */
  function ExtensionOf(f: FileEntry): (r: string)
    ensures '.' !in r && forall i :: 0 <= i < |r| ==> !('A' <= r[i] <= 'Z')
    ensures '.' !in f.name ==> r == ""
  {
    Lower(Extension(f.name))
  }

  /**
   * A regular, non-empty file with one of the nine accepted extensions; a
   * name without any '.' is never playable.
   */
  predicate Playable(f: FileEntry)
    ensures Playable(f) ==> f.isFile && f.length > 0 && '.' in f.name
  {
    f.isFile && f.length > 0 && ExtensionOf(f) in AllExtensions
  }

  /** One of the four priority extensions; each of them is also an accepted one. */
  predicate IsPriority(f: FileEntry)
    ensures IsPriority(f) ==> ExtensionOf(f) in AllExtensions
    ensures f.isFile && f.length > 0 && IsPriority(f) ==> Playable(f)
  {
    ExtensionOf(f) in PriorityExtensions
  }

  /**
   * Classification ignores ASCII case: two entries of the same kind and
   * length whose extensions agree up to case ("CLIP.MP4" and "clip.mp4") are
   * both playable or both not, and in the same group.
   */
  lemma PlayableIgnoresCase(f: FileEntry, g: FileEntry)
    requires f.isFile == g.isFile && f.length == g.length
    requires SameUpToAsciiCaseString(Extension(f.name), Extension(g.name))
    ensures Playable(f) == Playable(g) && IsPriority(f) == IsPriority(g)
  {
    LowerIgnoresCase(Extension(f.name), Extension(g.name));
  }

  predicate InPriorityGroup(f: FileEntry) {
    Playable(f) && IsPriority(f)
  }

  predicate InOtherGroup(f: FileEntry) {
    Playable(f) && !IsPriority(f)
  }

  /** How often `f` occurs in `s`. */
  function Count(s: seq<FileEntry>, f: FileEntry): nat {
    multiset(s)[f]
  }

  /** The elements of `s` that satisfy `keep`, in their order in `s`. */
  function Filter(s: seq<FileEntry>, keep: FileEntry -> bool): (r: seq<FileEntry>)
    ensures |r| <= |s|
    ensures forall f :: f in r <==> f in s && keep(f)
    ensures forall f {:trigger Count(r, f)} :: Count(r, f) == if keep(f) then Count(s, f) else 0
    decreases |s|
  {
    if s == [] then []
    else
      var init, last := s[..|s| - 1], s[|s| - 1];
      var kept := Filter(init, keep);
      var r := kept + (if keep(last) then [last] else []);
      assert s == init + [last];
      assert forall f :: Count(r, f) == Count(kept, f) + (if keep(last) && f == last then 1 else 0);
      assert forall f :: Count(s, f) == Count(init, f) + (if f == last then 1 else 0);
      r
  }

  /** Filtering one more element at the end. */
  lemma FilterSnoc(s: seq<FileEntry>, x: FileEntry, keep: FileEntry -> bool)
    ensures Filter(s + [x], keep) == Filter(s, keep) + (if keep(x) then [x] else [])
  {
    assert (s + [x])[..|s + [x]| - 1] == s;
  }

  /** Scanning one more entry adds it to the end of its group, if it has one. */
  lemma GroupsSnoc(s: seq<FileEntry>, f: FileEntry)
    ensures Filter(s + [f], InPriorityGroup) ==
      Filter(s, InPriorityGroup) + (if Playable(f) && IsPriority(f) then [f] else [])
    ensures Filter(s + [f], InOtherGroup) ==
      Filter(s, InOtherGroup) + (if Playable(f) && !IsPriority(f) then [f] else [])
  {
    FilterSnoc(s, f, InPriorityGroup);
    FilterSnoc(s, f, InOtherGroup);
  }

  /** The two groups together hold, with multiplicity, exactly the playable entries. */
  lemma {:induction false} GroupsPartitionPlayable(s: seq<FileEntry>)
    ensures multiset(Filter(s, InPriorityGroup)) + multiset(Filter(s, InOtherGroup))
         == multiset(Filter(s, Playable))
    decreases |s|
  {
    if s != [] {
      GroupsPartitionPlayable(s[..|s| - 1]);
    }
  }

  // ---------------------------------------------------------------- sorting

  ghost predicate SortedByName(s: seq<FileEntry>) {
    forall i, j :: 0 <= i < j < |s| ==> NameLe(s[i].name, s[j].name)
  }

  /** Inserts `x` before the first element whose name is not smaller. */
  function Insert(x: FileEntry, s: seq<FileEntry>): seq<FileEntry> {
    if s == [] then [x]
    else if NameLe(x.name, s[0].name) then [x] + s
    else [s[0]] + Insert(x, s[1..])
  }

  lemma {:induction false} InsertPermutes(x: FileEntry, s: seq<FileEntry>)
    ensures multiset(Insert(x, s)) == multiset(s) + multiset{x}
  {
    if s != [] && !NameLe(x.name, s[0].name) {
      InsertPermutes(x, s[1..]);
      assert s == [s[0]] + s[1..];
    }
  }

  lemma {:induction false} InsertSorted(x: FileEntry, s: seq<FileEntry>)
    requires SortedByName(s)
    ensures SortedByName(Insert(x, s))
  {
    if s == [] {
    } else if NameLe(x.name, s[0].name) {
      var r := [x] + s;
      forall i, j | 0 <= i < j < |r| ensures NameLe(r[i].name, r[j].name) {
        if i == 0 && j > 1 { NameLeTransitive(x.name, s[0].name, s[j - 1].name); }
      }
    } else {
      NameLeTotal(x.name, s[0].name);
      InsertSorted(x, s[1..]);
      InsertPermutes(x, s[1..]);
      var t := Insert(x, s[1..]);
      forall k | 0 <= k < |t| ensures NameLe(s[0].name, t[k].name) {
        assert t[k] in multiset(t);
        assert t[k] == x || t[k] in s[1..];
      }
    }
  }

  /**
   * A stable sort by name: the model of Kotlin's `sortedBy { it.name }`. The
   * result is a permutation of `s` in ascending name order.
   */
  function SortByName(s: seq<FileEntry>): (r: seq<FileEntry>)
    ensures multiset(r) == multiset(s)
    ensures SortedByName(r)
  {
    if s == [] then []
    else
      var t := SortByName(s[1..]);
      InsertPermutes(s[0], t);
      InsertSorted(s[0], t);
      assert s == [s[0]] + s[1..];
      assert multiset(s) == multiset(s[1..]) + multiset{s[0]};
      Insert(s[0], t)
  }

  /** The entries of `s` whose name is exactly `n`, in their order in `s`. */
  function WithName(s: seq<FileEntry>, n: string): seq<FileEntry> {
    if s == [] then [] else (if s[0].name == n then [s[0]] else []) + WithName(s[1..], n)
  }

  lemma {:induction false} InsertStable(x: FileEntry, s: seq<FileEntry>, n: string)
    ensures WithName(Insert(x, s), n) == (if x.name == n then [x] else []) + WithName(s, n)
  {
    if s == [] {
      assert [x][1..] == [];
    } else if NameLe(x.name, s[0].name) {
      assert ([x] + s)[1..] == s;
    } else {
      var t := Insert(x, s[1..]);
      InsertStable(x, s[1..], n);
      if x.name == s[0].name { NameLeReflexive(x.name); }
      assert Insert(x, s) == [s[0]] + t;
      assert ([s[0]] + t)[1..] == t;
      assert WithName([s[0]] + t, n) == (if s[0].name == n then [s[0]] else []) + WithName(t, n);
    }
  }

  /** The sort is stable: entries with equal names keep their listing order. */
  lemma {:induction false} SortStable(s: seq<FileEntry>, n: string)
    ensures WithName(SortByName(s), n) == WithName(s, n)
  {
    if s != [] {
      SortStable(s[1..], n);
      InsertStable(s[0], SortByName(s[1..]), n);
    }
  }

  // ------------------------------------------------------- the playback order

  /**
   * `p.sortedBy { it.name } + o.sortedBy { it.name }` over a listing. It holds
   * every playable entry as often as the listing does, and nothing else.
   */
  function VideoOrder(entries: seq<FileEntry>): (r: seq<FileEntry>)
    ensures multiset(r) == multiset(Filter(entries, Playable))
    ensures |r| == |Filter(entries, Playable)|
  {
    GroupsPartitionPlayable(entries);
    var r := SortByName(Filter(entries, InPriorityGroup)) + SortByName(Filter(entries, InOtherGroup));
    assert |multiset(r)| == |r|;
    assert |multiset(Filter(entries, Playable))| == |Filter(entries, Playable)|;
    r
  }

  lemma VideoOrderMembership(entries: seq<FileEntry>)
    ensures forall f :: f in VideoOrder(entries) <==> f in entries && Playable(f)
  {
    forall f ensures f in VideoOrder(entries) <==> f in entries && Playable(f) {
      assert f in VideoOrder(entries) <==> f in multiset(VideoOrder(entries));
      assert f in Filter(entries, Playable) <==> f in multiset(Filter(entries, Playable));
    }
  }

  /** Every element of a sorted group satisfies the group's predicate. */
  lemma SortedGroupMembers(s: seq<FileEntry>, keep: FileEntry -> bool)
    ensures forall k :: 0 <= k < |SortByName(Filter(s, keep))| ==> keep(SortByName(Filter(s, keep))[k])
  {
    var g := SortByName(Filter(s, keep));
    forall k | 0 <= k < |g| ensures keep(g[k]) {
      assert g[k] in multiset(g);
      assert g[k] in Filter(s, keep);
    }
  }

  /** In `p + o`, the position of an element tells its group. */
  lemma GroupByPosition(entries: seq<FileEntry>)
    ensures forall k :: 0 <= k < |VideoOrder(entries)| ==>
      (IsPriority(VideoOrder(entries)[k]) <==> k < |SortByName(Filter(entries, InPriorityGroup))|)
  {
    var p := SortByName(Filter(entries, InPriorityGroup));
    var o := SortByName(Filter(entries, InOtherGroup));
    assert VideoOrder(entries) == p + o;
    SortedGroupMembers(entries, InPriorityGroup);
    SortedGroupMembers(entries, InOtherGroup);
    forall k | 0 <= k < |p + o| ensures IsPriority((p + o)[k]) <==> k < |p| {
      if k >= |p| { assert (p + o)[k] == o[k - |p|]; }
    }
  }

  /** Every priority entry of the order comes before every other-group entry. */
  lemma VideoOrderPriorityFirst(entries: seq<FileEntry>)
    ensures forall i, j ::
      (0 <= i < |VideoOrder(entries)| && 0 <= j < |VideoOrder(entries)| &&
       IsPriority(VideoOrder(entries)[i]) && !IsPriority(VideoOrder(entries)[j])) ==> i < j
  {
    GroupByPosition(entries);
  }

  /** Two positions in the same group of `p + o` lie both in `p` or both in `o`. */
  lemma SameGroupSameHalf(entries: seq<FileEntry>, i: nat, j: nat)
    requires i < j < |VideoOrder(entries)|
    requires IsPriority(VideoOrder(entries)[i]) == IsPriority(VideoOrder(entries)[j])
    ensures var n := |SortByName(Filter(entries, InPriorityGroup))|; (i < n) == (j < n)
  {
    GroupByPosition(entries);
  }

  /** Within each group the order is ascending by name. */
  lemma VideoOrderGroupsSorted(entries: seq<FileEntry>)
    ensures forall i, j ::
      (0 <= i < j < |VideoOrder(entries)| &&
       IsPriority(VideoOrder(entries)[i]) == IsPriority(VideoOrder(entries)[j])) ==>
      NameLe(VideoOrder(entries)[i].name, VideoOrder(entries)[j].name)
  {
    var p := SortByName(Filter(entries, InPriorityGroup));
    var o := SortByName(Filter(entries, InOtherGroup));
    var r := p + o;
    assert r == VideoOrder(entries);
    forall i, j | 0 <= i < j < |r| && IsPriority(r[i]) == IsPriority(r[j])
      ensures NameLe(r[i].name, r[j].name)
    {
      SameGroupSameHalf(entries, i, j);
      SameHalfOrdered(p, o, i, j);
    }
  }

  /** Two positions in the same half of a concatenation of sorted sequences are in order. */
  lemma SameHalfOrdered(p: seq<FileEntry>, o: seq<FileEntry>, i: nat, j: nat)
    requires SortedByName(p) && SortedByName(o)
    requires i < j < |p + o| && (i < |p|) == (j < |p|)
    ensures NameLe((p + o)[i].name, (p + o)[j].name)
  {
    if i >= |p| {
      assert (p + o)[i] == o[i - |p|] && (p + o)[j] == o[j - |p|];
    } else {
      assert (p + o)[i] == p[i] && (p + o)[j] == p[j];
    }
  }

  /** The entries of a listing; a listing the platform could not read (`null`) has none. */
  function Entries(listing: Option<seq<FileEntry>>): (r: seq<FileEntry>)
    ensures listing.None? ==> r == []
    ensures listing.Some? ==> r == listing.value
  {
    listing.GetOr([])
  }

  /**
   * `findVideoFiles`: one pass over the listing collects the priority group
   * `p` and the other group `o`, then each is sorted by name.
   */
  method FindVideoFiles(listing: Option<seq<FileEntry>>) returns (files: seq<FileEntry>)
    ensures files == VideoOrder(Entries(listing))
    ensures forall f :: f in files <==> f in Entries(listing) && Playable(f)
    ensures multiset(files) == multiset(Filter(Entries(listing), Playable))
  {
    var entries := Entries(listing);
    var p: seq<FileEntry> := [];
    var o: seq<FileEntry> := [];
    if listing.Some? {
      var i := 0;
      while i < |entries|
        invariant 0 <= i <= |entries|
        invariant p == Filter(entries[..i], InPriorityGroup)
        invariant o == Filter(entries[..i], InOtherGroup)
      {
        var f := entries[i];
        if f.isFile && f.length > 0 {
          var ext := Lower(Extension(f.name));
          if ext in AllExtensions {
            if ext in PriorityExtensions {
              p := p + [f];
            } else {
              o := o + [f];
            }
          }
        }
        assert entries[..i + 1] == entries[..i] + [f];
        GroupsSnoc(entries[..i], f);
        i := i + 1;
      }
      assert entries[..i] == entries;
    }
    files := SortByName(p) + SortByName(o);
    assert files == VideoOrder(entries);
    assert multiset(files) == multiset(Filter(entries, Playable));
    VideoOrderMembership(entries);
  }

  // ------------------------------------------------------- folder resolution

  /** What `File(root, name)` reports about a sub-folder, and its listing. */
  datatype Folder = Folder(present: bool, isDirectory: bool, canRead: bool, listing: Option<seq<FileEntry>>)

  /** A mounted drive's root: its own listing and the sub-folders by exact name. */
  datatype Root = Root(listing: Option<seq<FileEntry>>, children: map<string, Folder>)

  const VideoFolderNames: seq<string> := ["video", "Video", "VIDEO", "Videos", "VIDEOS"]

  /** The child of `root` called `name`; a missing one does not exist. */
  function Child(root: Root, name: string): (r: Folder)
    ensures name in root.children ==> r == root.children[name]
    ensures name !in root.children ==> !r.present && !Usable(r)
  {
    if name in root.children then root.children[name] else Folder(false, false, false, None)
  }

  /** `exists() && isDirectory && canRead()`: a folder failing any one test is skipped. */
  predicate Usable(f: Folder) {
    f.present && f.isDirectory && f.canRead
  }

  /** The first of `names` that is a usable sub-folder of `root`. */
  function FirstUsable(root: Root, names: seq<string>): (r: Option<string>)
    ensures r.Some? ==> r.value in names && Usable(Child(root, r.value))
  {
    if names == [] then None
    else if Usable(Child(root, names[0])) then Some(names[0])
    else FirstUsable(root, names[1..])
  }

  /** `names[k]` is usable and no candidate before it is. */
  ghost predicate FirstUsableAt(root: Root, names: seq<string>, k: nat) {
    k < |names| && Usable(Child(root, names[k])) &&
    forall j :: 0 <= j < k ==> !Usable(Child(root, names[j]))
  }

  /** The first usable candidate is the one chosen. */
  lemma {:induction false} FirstUsablePicksFirst(root: Root, names: seq<string>, k: nat)
    requires FirstUsableAt(root, names, k)
    ensures FirstUsable(root, names) == Some(names[k])
  {
    if k > 0 {
      assert !Usable(Child(root, names[0]));
      FirstUsablePicksFirst(root, names[1..], k - 1);
    }
  }

  /** Nothing is chosen exactly when no candidate is usable. */
  lemma {:induction false} FirstUsableNone(root: Root, names: seq<string>)
    ensures FirstUsable(root, names).None?
        <==> forall k :: 0 <= k < |names| ==> !Usable(Child(root, names[k]))
  {
    if names != [] {
      FirstUsableNone(root, names[1..]);
      assert forall k :: 1 <= k < |names| ==> names[k] == names[1..][k - 1];
    }
  }

  /**
   * `findVideoFolder`: a usable candidate folder, and none exactly when no
   * candidate is usable (which one: `FirstUsablePicksFirst`).
   */
  function VideoFolder(root: Root): (r: Option<string>)
    ensures r.Some? ==> r.value in VideoFolderNames && Usable(Child(root, r.value))
    ensures r.None? <==> forall k :: 0 <= k < |VideoFolderNames| ==> !Usable(Child(root, VideoFolderNames[k]))
  {
    FirstUsableNone(root, VideoFolderNames);
    FirstUsable(root, VideoFolderNames)
  }

  /** `findVideoFolder` as the source writes it: an early-return loop over the candidates. */
  method FindVideoFolder(root: Root) returns (folder: Option<string>)
    ensures folder == VideoFolder(root)
    ensures folder.Some? ==> folder.value in VideoFolderNames && Usable(Child(root, folder.value))
  {
    var i := 0;
    while i < |VideoFolderNames|
      invariant 0 <= i <= |VideoFolderNames|
      invariant FirstUsable(root, VideoFolderNames) == FirstUsable(root, VideoFolderNames[i..])
    {
      var f := Child(root, VideoFolderNames[i]);
      if f.present && f.isDirectory && f.canRead {
        return Some(VideoFolderNames[i]);
      }
      assert VideoFolderNames[i..][1..] == VideoFolderNames[i + 1..];
      i := i + 1;
    }
    return None;
  }

  /**
   * The listing the scan reads (`videoFolder ?: usbDevice`): that of the first
   * usable candidate folder, or the root's own when no candidate is usable.
   */
  function SearchListing(root: Root): (r: Option<seq<FileEntry>>)
    ensures forall k: nat :: FirstUsableAt(root, VideoFolderNames, k) ==>
      r == Child(root, VideoFolderNames[k]).listing
    ensures (forall k :: 0 <= k < |VideoFolderNames| ==> !Usable(Child(root, VideoFolderNames[k]))) ==>
      r == root.listing
  {
    assert forall k: nat :: FirstUsableAt(root, VideoFolderNames, k) ==>
      VideoFolder(root) == Some(VideoFolderNames[k])
    by {
      forall k: nat | FirstUsableAt(root, VideoFolderNames, k) {
        FirstUsablePicksFirst(root, VideoFolderNames, k);
      }
    }
    match VideoFolder(root)
    case Some(name) => Child(root, name).listing
    case None => root.listing
  }

  /** A usable "Video" with no usable "video" before it: the scan reads "Video", not the root. */
  lemma CapitalisedFolderChosen(root: Root)
    requires Usable(Child(root, "Video")) && !Usable(Child(root, "video"))
    ensures SearchListing(root) == root.children["Video"].listing
  {
    FirstUsablePicksFirst(root, VideoFolderNames, 1);
  }

  /** With no usable candidate the scan falls back to the root's own listing. */
  lemma RootFallback(root: Root)
    requires forall k :: 0 <= k < |VideoFolderNames| ==> !Usable(Child(root, VideoFolderNames[k]))
    ensures SearchListing(root) == root.listing
  {
    FirstUsableNone(root, VideoFolderNames);
  }
}
