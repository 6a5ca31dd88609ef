/**
 * The entries of a video collection page: folders and videos of one
 * directory, sorted by basename, each with the extension of its poster image.
 */
module LinkInfo {
  import opened Wrappers
  import NameParts

  /** `struct LinkInfo`: a link to a video (`isFolder` false) or to a video collection. */
  datatype LinkInfo = LinkInfo(isFolder: bool, basename: string, posterExtension: string)

  /**
   * One item of `read_dir`: `None` stands for an entry that could not be
   * read and for a file name that is not valid Unicode, both of which the
   * listing skips.
   */
  type DirEntry = Option<string>

  datatype Ordering = Less | Equal | Greater

  function Flip(o: Ordering): Ordering {
    match o
    case Less => Greater
    case Equal => Equal
    case Greater => Less
  }

  /*
   * Ordering of names. Rust orders `String`s by their UTF-8 bytes, which is
   * the lexicographic order of their code points, so names are compared here
   * character by character.
   */

  /** `str::cmp`: lexicographic order, a proper prefix coming first. */
  function CompareNames(a: string, b: string): (o: Ordering)
    ensures o == Equal <==> a == b
  {
    if a == [] then (if b == [] then Equal else Less)
    else if b == [] then Greater
    else if a[0] < b[0] then Less
    else if a[0] > b[0] then Greater
    else
      var o := CompareNames(a[1..], b[1..]);
      assert a == [a[0]] + a[1..] && b == [b[0]] + b[1..];
      o
  }

  /** Swapping the operands flips the answer. */
  lemma {:induction false} CompareNamesFlip(a: string, b: string)
    ensures CompareNames(b, a) == Flip(CompareNames(a, b))
  {
    if a != [] && b != [] && a[0] == b[0] {
      CompareNamesFlip(a[1..], b[1..]);
    }
  }

  /** "Not after" is transitive, so the order is total and consistent. */
  lemma {:induction false} CompareNamesTransitive(a: string, b: string, c: string)
    requires CompareNames(a, b) != Greater && CompareNames(b, c) != Greater
    ensures CompareNames(a, c) != Greater
  {
    if a != [] && b != [] && c != [] && a[0] == b[0] == c[0] {
      CompareNamesTransitive(a[1..], b[1..], c[1..]);
    }
  }

  /** "Strictly before" followed by "not after" is "strictly before". */
  lemma StrictlyBefore(a: string, b: string, c: string)
    requires CompareNames(a, b) == Less && CompareNames(b, c) != Greater
    ensures CompareNames(a, c) == Less
  {
    CompareNamesTransitive(a, b, c);
    if CompareNames(a, c) == Equal {
      CompareNamesFlip(a, b);
    }
  }

  /** `PartialEq for LinkInfo`: two links are equal when their basenames are. */
  predicate Same(x: LinkInfo, y: LinkInfo) {
    x.basename == y.basename
  }

  /** `Ord for LinkInfo`: links are ordered by basename alone. */
  function Compare(x: LinkInfo, y: LinkInfo): (o: Ordering)
    ensures o == Equal <==> Same(x, y)
    ensures o == Flip(CompareNames(y.basename, x.basename))
  {
    CompareNamesFlip(y.basename, x.basename);
    CompareNames(x.basename, y.basename)
  }

  /** Neither equality nor order looks at whether a link is a folder or at its poster. */
  lemma CompareIgnoresKindAndPoster(x: LinkInfo, y: LinkInfo, folder: bool, poster: string)
    ensures Compare(x.(isFolder := folder, posterExtension := poster), y) == Compare(x, y)
    ensures Same(x.(isFolder := folder, posterExtension := poster), y) == Same(x, y)
  {
  }

  /** Ascending by basename, equal basenames allowed. */
  predicate Sorted(s: seq<LinkInfo>) {
    forall i, j :: 0 <= i < j < |s| ==> Compare(s[i], s[j]) != Greater
  }

  /** The links of `s` whose basename is `k`, in their order in `s`. */
  function Keep(s: seq<LinkInfo>, k: string): seq<LinkInfo> {
    if s == [] then []
    else (if s[0].basename == k then [s[0]] else []) + Keep(s[1..], k)
  }

  lemma {:induction false} KeepMembers(s: seq<LinkInfo>, k: string, x: LinkInfo)
    requires x in Keep(s, k)
    ensures x in s && x.basename == k
  {
    if s != [] && !(x == s[0] && s[0].basename == k) {
      KeepMembers(s[1..], k, x);
    }
  }

  /*
   * Sorting. `slice::sort` is a stable sort; it is modelled by a stable
   * insertion sort, and `SortIsTheStableSort` shows that every stable sort
   * of a sequence gives this one result.
   */

  /** Puts `x` in front of the first link of `t` that is not before it. */
  function Insert(t: seq<LinkInfo>, x: LinkInfo): (r: seq<LinkInfo>)
    ensures multiset(r) == multiset(t) + multiset{x}
  {
    if t == [] || Compare(x, t[0]) != Greater then [x] + t
    else
      var r := [t[0]] + Insert(t[1..], x);
      assert t == [t[0]] + t[1..];
      r
  }

  function Sort(s: seq<LinkInfo>): (r: seq<LinkInfo>)
    ensures multiset(r) == multiset(s)
  {
    if s == [] then []
    else
      var r := Insert(Sort(s[1..]), s[0]);
      assert s == [s[0]] + s[1..];
      r
  }

  lemma {:induction false} InsertSorted(t: seq<LinkInfo>, x: LinkInfo)
    requires Sorted(t)
    ensures Sorted(Insert(t, x))
  {
    if t == [] || Compare(x, t[0]) != Greater {
      forall j | 0 <= j < |t| ensures Compare(x, t[j]) != Greater {
        if j > 0 {
          CompareNamesTransitive(x.basename, t[0].basename, t[j].basename);
        }
      }
    } else {
      var rest := Insert(t[1..], x);
      InsertSorted(t[1..], x);
      forall y | y in rest ensures Compare(t[0], y) != Greater {
        assert y in multiset(rest);
        if y != x {
          assert y in t[1..];
        }
      }
      assert Insert(t, x) == [t[0]] + rest;
    }
  }

  /** The result of `Sort` is in ascending order of basename. */
  lemma {:induction false} SortSorted(s: seq<LinkInfo>)
    ensures Sorted(Sort(s))
  {
    if s != [] {
      SortSorted(s[1..]);
      InsertSorted(Sort(s[1..]), s[0]);
    }
  }

  /** Inserting `x` lands after every link with its basename. */
  lemma {:induction false} KeepInsert(t: seq<LinkInfo>, x: LinkInfo, k: string)
    ensures Keep(Insert(t, x), k) == if x.basename == k then [x] + Keep(t, k) else Keep(t, k)
  {
    if t != [] && Compare(x, t[0]) == Greater {
      KeepInsert(t[1..], x, k);
      assert Insert(t, x) == [t[0]] + Insert(t[1..], x);
      assert Insert(t, x)[1..] == Insert(t[1..], x);
    }
  }

  /** Sorting keeps the links of each basename in their original order: the sort is stable. */
  lemma {:induction false} SortStable(s: seq<LinkInfo>, k: string)
    ensures Keep(Sort(s), k) == Keep(s, k)
  {
    if s != [] {
      SortStable(s[1..], k);
      KeepInsert(Sort(s[1..]), s[0], k);
    }
  }

  lemma KeepOfFirst(s: seq<LinkInfo>)
    requires s != []
    ensures Keep(s, s[0].basename) != []
  {
  }

  /** The first link of a sorted sequence is not after any of its links. */
  lemma FirstIsLeast(s: seq<LinkInfo>, x: LinkInfo)
    requires Sorted(s) && s != [] && x in s
    ensures Compare(s[0], x) != Greater
  {
    var i :| 0 <= i < |s| && s[i] == x;
  }

  /** A sorted sequence is determined by the order of the links within each basename. */
  lemma {:induction false} SortedKeepUnique(a: seq<LinkInfo>, b: seq<LinkInfo>)
    requires Sorted(a) && Sorted(b)
    requires forall k :: Keep(a, k) == Keep(b, k)
    ensures a == b
    decreases |a|
  {
    if a == [] && b != [] {
      KeepOfFirst(b);
      assert false;
    } else if a != [] && b == [] {
      KeepOfFirst(a);
      assert false;
    } else if a != [] {
      var ka, kb := a[0].basename, b[0].basename;
      assert Keep(a, ka)[0] == a[0];
      KeepMembers(b, ka, Keep(b, ka)[0]);
      FirstIsLeast(b, Keep(b, ka)[0]);
      assert Keep(b, kb)[0] == b[0];
      KeepMembers(a, kb, Keep(a, kb)[0]);
      FirstIsLeast(a, Keep(a, kb)[0]);
      CompareNamesFlip(ka, kb);
      assert ka == kb;
      assert a[0] == b[0] by {
        assert Keep(a, ka) == [a[0]] + Keep(a[1..], ka);
        assert Keep(b, ka) == [b[0]] + Keep(b[1..], ka);
      }
      forall k ensures Keep(a[1..], k) == Keep(b[1..], k) {
        var head: seq<LinkInfo> := if ka == k then [a[0]] else [];
        assert Keep(a, k) == head + Keep(a[1..], k);
        assert Keep(b, k) == head + Keep(b[1..], k);
        assert Keep(a[1..], k) == Keep(a, k)[|head|..];
        assert Keep(b[1..], k) == Keep(b, k)[|head|..];
      }
      SortedKeepUnique(a[1..], b[1..]);
      assert a == [a[0]] + a[1..] && b == [b[0]] + b[1..];
    }
  }

  /** Any sorted rearrangement that keeps equal basenames in order is `Sort(s)`. */
  lemma SortIsTheStableSort(s: seq<LinkInfo>, t: seq<LinkInfo>)
    requires Sorted(t)
    requires forall k :: Keep(t, k) == Keep(s, k)
    ensures t == Sort(s)
  {
    SortSorted(s);
    forall k ensures Keep(Sort(s), k) == Keep(t, k) {
      SortStable(s, k);
    }
    SortedKeepUnique(Sort(s), t);
  }

  /*
   * Classifying one directory entry by the extension of its name.
   */

  /** What one name contributes: a link, a poster for a basename, or nothing. */
  datatype Contribution = Listed(info: LinkInfo) | Poster(basename: string, extension: string) | Skipped

  /** The image extensions a poster may have. */
  predicate IsPosterExtension(e: string) {
    e == ".jpg" || e == ".jpeg" || e == ".png" || e == ".webp"
  }

  /** The body of the `for entry in dir` loop: one name, classified by `NameParts::new`. */
  function Classify(name: string): Contribution {
    var parts := NameParts.Split(name);
    if parts.extension == "" then Listed(LinkInfo(true, name, ""))
    else if parts.extension == ".mp4" then Listed(LinkInfo(false, parts.basename, ""))
    else if IsPosterExtension(parts.extension) then Poster(parts.basename, parts.extension)
    else Skipped
  }

  /** A name without a dot is a folder, listed under its whole name. */
  lemma ClassifyFolder(name: string)
    ensures Classify(name).Listed? && Classify(name).info.isFolder <==> '.' !in name
    ensures '.' !in name ==> Classify(name).info == LinkInfo(true, name, "")
  {
    var parts := NameParts.Split(name);
    if parts.extension != "" {
      assert name[|parts.basename|] == '.';
    }
  }

  /** A name whose extension is exactly `.mp4` is a video, listed under its basename. */
  lemma ClassifyVideo(name: string)
    ensures Classify(name).Listed? && !Classify(name).info.isFolder <==> NameParts.Split(name).extension == ".mp4"
    ensures NameParts.Split(name).extension == ".mp4" ==>
      Classify(name).info == LinkInfo(false, NameParts.Split(name).basename, "")
  {
  }

  /** A name with a poster extension registers that extension for its basename, and lists nothing. */
  lemma ClassifyPoster(name: string)
    ensures Classify(name).Poster? <==> IsPosterExtension(NameParts.Split(name).extension)
    ensures Classify(name).Poster? ==>
      Classify(name) == Poster(NameParts.Split(name).basename, NameParts.Split(name).extension)
  {
  }

  /** A link made from a name starts without a poster. */
  lemma ListedWithoutPoster(name: string)
    ensures Classify(name).Listed? ==> Classify(name).info.posterExtension == ""
  {
  }

  /** A video with two extensions (a subtitle language, say) is not listed. */
  lemma DoubleExtensionSkipped(basename: string, language: string)
    requires '.' !in basename && '.' !in language
    ensures Classify(basename + "." + language + ".mp4").Skipped?
  {
    var name := basename + "." + language + ".mp4";
    var extension := "." + language + ".mp4";
    NameParts.SplitUnique(name, NameParts.NameParts(basename, extension));
    assert |extension| > 4 && extension[|extension| - 1] == '4';
  }

  /** What one item of `read_dir` contributes: nothing when it or its name is unreadable. */
  function ContributionOf(e: DirEntry): Contribution {
    match e
    case None => Skipped
    case Some(name) => Classify(name)
  }

  /** The contributions of the entries, one per entry, in order. */
  function Contributions(es: seq<DirEntry>): (cs: seq<Contribution>)
    ensures |cs| == |es|
  {
    seq(|es|, i requires 0 <= i < |es| => ContributionOf(es[i]))
  }

  /** The links pushed for the contributions `cs`, in the order they came. */
  function Collected(cs: seq<Contribution>): seq<LinkInfo> {
    if cs == [] then []
    else
      var last := cs[|cs| - 1];
      Collected(cs[..|cs| - 1]) + (if last.Listed? then [last.info] else [])
  }

  /** The poster map after the contributions `cs`: `insert` replaces an earlier poster for a basename. */
  function Posters(cs: seq<Contribution>): map<string, string> {
    if cs == [] then map[]
    else
      var last := cs[|cs| - 1];
      var m := Posters(cs[..|cs| - 1]);
      if last.Poster? then m[last.basename := last.extension] else m
  }

  /** A link is collected exactly when some entry contributes it. */
  lemma {:induction false} CollectedMembers(cs: seq<Contribution>, x: LinkInfo)
    ensures x in Collected(cs) <==> exists i :: 0 <= i < |cs| && cs[i] == Listed(x)
  {
    if cs != [] {
      var init := cs[..|cs| - 1];
      CollectedMembers(init, x);
      assert forall i :: 0 <= i < |init| ==> init[i] == cs[i];
    }
  }

  /** The poster of a basename comes from the last contribution that registers one for it. */
  lemma {:induction false} LastPosterWins(cs: seq<Contribution>, i: nat, basename: string)
    requires i < |cs| && cs[i].Poster? && cs[i].basename == basename
    requires forall j :: i < j < |cs| ==> !(cs[j].Poster? && cs[j].basename == basename)
    ensures basename in Posters(cs) && Posters(cs)[basename] == cs[i].extension
  {
    if i < |cs| - 1 {
      LastPosterWins(cs[..|cs| - 1], i, basename);
    }
  }

  /** A basename nothing registers a poster for has none. */
  lemma {:induction false} NoPosterRegistered(cs: seq<Contribution>, basename: string)
    requires forall j :: 0 <= j < |cs| ==> !(cs[j].Poster? && cs[j].basename == basename)
    ensures basename !in Posters(cs)
  {
    if cs != [] {
      NoPosterRegistered(cs[..|cs| - 1], basename);
    }
  }

  /** The loop `for link_info in &mut result`: each link takes the poster of its basename, if any. */
  function WithPosters(s: seq<LinkInfo>, posters: map<string, string>): (r: seq<LinkInfo>)
    ensures |r| == |s|
  {
    seq(|s|, k requires 0 <= k < |s| =>
      if s[k].basename in posters then s[k].(posterExtension := posters[s[k].basename]) else s[k])
  }

  /** `LinkInfo::list`, with the directory given as the outcome of `read_dir`. */
  function ListSpec(folder: Option<seq<DirEntry>>): seq<LinkInfo> {
    match folder
    case None => []
    case Some(es) =>
      var cs := Contributions(es);
      WithPosters(Sort(Collected(cs)), Posters(cs))
  }

  /** An unreadable folder lists nothing. */
  lemma UnreadableFolderIsEmpty()
    ensures ListSpec(None) == []
  {
  }

  /** The listing is in ascending order of basename. */
  lemma ListSorted(folder: Option<seq<DirEntry>>)
    ensures Sorted(ListSpec(folder))
  {
    if folder.Some? {
      SortSorted(Collected(Contributions(folder.value)));
    }
  }

  /** Every collected link still has no poster. */
  lemma {:induction false} CollectedHaveNoPoster(cs: seq<Contribution>)
    requires forall i :: 0 <= i < |cs| && cs[i].Listed? ==> cs[i].info.posterExtension == ""
    ensures forall x :: x in Collected(cs) ==> x.posterExtension == ""
  {
    if cs != [] {
      CollectedHaveNoPoster(cs[..|cs| - 1]);
    }
  }

  /**
   * The listing holds the collected links in sorted order (`SortStable`
   * keeps each basename's links in entry order), each carrying the poster
   * registered for its basename.
   */
  lemma ListContents(es: seq<DirEntry>)
    ensures |ListSpec(Some(es))| == |Collected(Contributions(es))|
    ensures forall i :: 0 <= i < |ListSpec(Some(es))| ==>
      var x, cs := ListSpec(Some(es))[i], Contributions(es);
      && x.(posterExtension := "") == Sort(Collected(cs))[i]
      && x.posterExtension == (if x.basename in Posters(cs) then Posters(cs)[x.basename] else "")
  {
    var cs := Contributions(es);
    forall i | 0 <= i < |cs| && cs[i].Listed? ensures cs[i].info.posterExtension == "" {
      ListedWithoutPoster(es[i].value);
    }
    CollectedHaveNoPoster(cs);
    var s := Sort(Collected(cs));
    var r := ListSpec(Some(es));
    assert r == WithPosters(s, Posters(cs));
    forall i | 0 <= i < |r|
      ensures r[i].(posterExtension := "") == s[i]
      ensures r[i].posterExtension == (if r[i].basename in Posters(cs) then Posters(cs)[r[i].basename] else "")
    {
      assert s[i] in multiset(Collected(cs));
    }
  }

  /** `LinkInfo::list`: collect links and posters entry by entry, sort, then attach posters. */
  method List(folder: Option<seq<DirEntry>>) returns (result: seq<LinkInfo>)
    ensures result == ListSpec(folder)
  {
    if folder.None? {
      return [];
    }
    var entries := folder.value;
    ghost var cs := Contributions(entries);
    result := [];
    var posterExtensions: map<string, string> := map[];
    for i := 0 to |entries|
      invariant result == Collected(cs[..i])
      invariant posterExtensions == Posters(cs[..i])
    {
      assert cs[..i + 1][..i] == cs[..i];
      var entry := entries[i];
      if entry.None? {
        continue;
      }
      var name := entry.value;
      var parts := NameParts.New(name);
      if parts.extension == "" {
        result := result + [LinkInfo(true, name, "")];
      } else if parts.extension == ".mp4" {
        name := name[..|parts.basename|];
        result := result + [LinkInfo(false, name, "")];
      } else if IsPosterExtension(parts.extension) {
        name := name[..|parts.basename|];
        posterExtensions := posterExtensions[name := parts.extension];
      }
    }
    assert cs[..|entries|] == cs;
    result := Sort(result);
    ghost var sorted := result;
    for j := 0 to |result|
      invariant |result| == |sorted|
      invariant forall k :: 0 <= k < j ==> result[k] == WithPosters(sorted, posterExtensions)[k]
      invariant forall k :: j <= k < |result| ==> result[k] == sorted[k]
    {
      if result[j].basename in posterExtensions {
        result := result[j := result[j].(posterExtension := posterExtensions[result[j].basename])];
      }
    }
  }
}
