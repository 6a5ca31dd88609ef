/**
 * The text helpers of the HTTP responder: the traversal check on request
 * paths, the last extension of a path, the folder name shown as a page
 * title, and HTML escaping of names put into generated pages.
 */
module HttpText {

  /*
   * `has_parent_dir`
   */

  /** `/` and `\` both separate path segments. */
  predicate IsSeparator(c: char) {
    c == '/' || c == '\\'
  }

  /** Where the segment that ends at `j` starts: just after the last separator before `j`. */
  function SegmentStart(path: string, j: nat): (k: nat)
    requires j <= |path|
    ensures k <= j
    ensures k == 0 || IsSeparator(path[k - 1])
    ensures forall m :: k <= m < j ==> !IsSeparator(path[m])
  {
    if j == 0 || IsSeparator(path[j - 1]) then j else SegmentStart(path, j - 1)
  }

  /** Some whole segment of `path` is exactly `..`. */
  predicate HasParentSegment(path: string) {
    exists j :: 0 <= j <= |path| && (j == |path| || IsSeparator(path[j])) && path[SegmentStart(path, j)..j] == ".."
  }

  /** The states of the traversal detector: what the current segment is so far. */
  datatype DotState = Begin | DotOne | DotTwo | Other

  /** The state that stands for a segment read so far. */
  function StateOf(segment: string): DotState {
    if segment == [] then Begin
    else if segment == "." then DotOne
    else if segment == ".." then DotTwo
    else Other
  }

  /** Reading one more character that is not a separator moves the detector as the segment grows. */
  lemma StateOfExtend(segment: string, c: char)
    requires !IsSeparator(c)
    ensures StateOf(segment + [c]) ==
      match StateOf(segment)
      case Begin => if c == '.' then DotOne else Other
      case DotOne => if c == '.' then DotTwo else Other
      case DotTwo => Other
      case Other => Other
  {
    if segment == [] {
      assert segment + [c] == [c];
    } else if |segment| == 1 {
      assert segment + [c] == [segment[0], c];
    } else {
      assert |segment + [c]| >= 3;
    }
  }

  /** The segment ending at `j` is exactly `..`. */
  predicate ParentAt(path: string, j: nat)
    requires j <= |path|
  {
    path[SegmentStart(path, j)..j] == ".."
  }

  /** After a separator a new, empty segment begins. */
  lemma SegmentAfterSeparator(path: string, i: nat)
    requires i < |path| && IsSeparator(path[i])
    ensures SegmentStart(path, i + 1) == i + 1
  {
  }

  /** Any other character extends the current segment. */
  lemma SegmentExtends(path: string, i: nat)
    requires i < |path| && !IsSeparator(path[i])
    ensures path[SegmentStart(path, i + 1)..i + 1] == path[SegmentStart(path, i)..i] + [path[i]]
  {
    assert SegmentStart(path, i + 1) == SegmentStart(path, i);
  }

  /** No segment that ends at a separator before `i` is `..`. */
  predicate NoParentBefore(path: string, i: nat)
    requires i <= |path|
  {
    forall j :: 0 <= j < i && IsSeparator(path[j]) ==> !ParentAt(path, j)
  }

  lemma NoParentStep(path: string, i: nat)
    requires i < |path| && NoParentBefore(path, i)
    requires IsSeparator(path[i]) ==> !ParentAt(path, i)
    ensures NoParentBefore(path, i + 1)
  {
  }

  /** The detector's state after `i` characters: that of the segment read so far. */
  function StateAt(path: string, i: nat): DotState
    requires i <= |path|
  {
    StateOf(path[SegmentStart(path, i)..i])
  }

  /** The detector is at `DotTwo` exactly where the segment read so far is `..`. */
  lemma StateAtParent(path: string, i: nat)
    requires i <= |path|
    ensures ParentAt(path, i) <==> StateAt(path, i) == DotTwo
  {
  }

  /** One character moves the detector: a separator resets it, anything else extends the segment. */
  lemma StateAtStep(path: string, i: nat)
    requires i < |path|
    ensures StateAt(path, i + 1) ==
      if IsSeparator(path[i]) then Begin
      else match StateAt(path, i)
        case Begin => if path[i] == '.' then DotOne else Other
        case DotOne => if path[i] == '.' then DotTwo else Other
        case DotTwo => Other
        case Other => Other
  {
    if IsSeparator(path[i]) {
      SegmentAfterSeparator(path, i);
      assert path[i + 1..i + 1] == [];
    } else {
      SegmentExtends(path, i);
      StateOfExtend(path[SegmentStart(path, i)..i], path[i]);
    }
  }

  /** `has_parent_dir`: true exactly when some segment, `/` and `\` both separating, is `..`. */
  method HasParentDir(path: string) returns (found: bool)
    ensures found == HasParentSegment(path)
  {
    var state := Begin;
    for i := 0 to |path|
      invariant state == StateAt(path, i)
      invariant NoParentBefore(path, i)
    {
      var c := path[i];
      StateAtStep(path, i);
      StateAtParent(path, i);
      if IsSeparator(c) {
        if state == DotTwo {
          ParentFound(path, i);
          return true;
        }
        NoParentStep(path, i);
        state := Begin;
      } else {
        NoParentStep(path, i);
        match state
        case Begin => state := if c == '.' then DotOne else Other;
        case DotOne => state := if c == '.' then DotTwo else Other;
        case DotTwo => state := Other;
        case Other => state := Other;
      }
    }
    found := state == DotTwo;
    StateAtParent(path, |path|);
    if found {
      ParentFound(path, |path|);
    } else {
      NoParentAtAll(path);
    }
  }

  lemma ParentFound(path: string, j: nat)
    requires j <= |path| && (j == |path| || IsSeparator(path[j])) && ParentAt(path, j)
    ensures HasParentSegment(path)
  {
  }

  lemma NoParentAtAll(path: string)
    requires NoParentBefore(path, |path|) && !ParentAt(path, |path|)
    ensures !HasParentSegment(path)
  {
    assert forall j :: 0 <= j <= |path| && (j == |path| || IsSeparator(path[j])) ==> !ParentAt(path, j);
  }

  /*
   * `get_last_extension`
   */

  /**
   * The extension after the last `/`: from the last `.` to the end, or
   * empty when no `.` follows the last `/`.
   */
  function LastExtension(path: string): (ext: string)
    ensures |ext| <= |path|
  {
    if path == [] then []
    else
      var init, c := path[..|path| - 1], path[|path| - 1];
      if c == '/' then []
      else if c == '.' then [c]
      else
        var e := LastExtension(init);
        if e == [] then [] else e + [c]
  }

  /** The extension is a suffix of the path. */
  lemma {:induction false} LastExtensionSuffix(path: string)
    ensures LastExtension(path) == path[|path| - |LastExtension(path)|..]
  {
    if path != [] && path[|path| - 1] != '/' && path[|path| - 1] != '.' {
      var init := path[..|path| - 1];
      LastExtensionSuffix(init);
      var e := LastExtension(init);
      if e != [] {
        assert path == init + [path[|path| - 1]];
        assert path[|path| - |e| - 1..] == init[|init| - |e|..] + [path[|path| - 1]];
      }
    }
  }

  /** A non-empty extension starts with its only `.` and holds no `/`. */
  lemma {:induction false} LastExtensionShape(path: string)
    ensures var ext := LastExtension(path);
      ext != [] ==> ext[0] == '.' && '.' !in ext[1..] && '/' !in ext
  {
    if path != [] && path[|path| - 1] != '/' && path[|path| - 1] != '.' {
      var init, c := path[..|path| - 1], path[|path| - 1];
      LastExtensionShape(init);
      var e := LastExtension(init);
      if e != [] {
        assert (e + [c])[1..] == e[1..] + [c];
      }
    }
  }

  /** The extension is empty only when a `/` follows every `.`. */
  lemma {:induction false} LastExtensionEmpty(path: string)
    ensures LastExtension(path) == [] ==> forall k :: 0 <= k < |path| && path[k] == '.' ==> '/' in path[k + 1..]
  {
    if path != [] && LastExtension(path) == [] {
      var init, c := path[..|path| - 1], path[|path| - 1];
      assert path == init + [c];
      if c == '/' {
        assert forall k :: 0 <= k < |init| && path[k] == '.' ==> path[|path| - 1] in path[k + 1..];
      } else {
        LastExtensionEmpty(init);
        assert forall k :: 0 <= k < |init| && init[k] == '.' ==> init[k + 1..] + [c] == path[k + 1..];
      }
    }
  }

  /** One more character: a `/` forgets the extension, a `.` starts a new one, anything else extends it. */
  lemma LastExtensionStep(path: string, i: nat)
    requires i < |path|
    ensures var e, e' := LastExtension(path[..i]), LastExtension(path[..i + 1]);
      e' == if path[i] == '/' then [] else if path[i] == '.' then ['.'] else if e == [] then [] else e + [path[i]]
  {
    assert path[..i + 1][..i] == path[..i];
  }

  /** `get_last_extension`: one pass, forgetting the extension at each `/`, restarting it at each `.`. */
  method GetLastExtension(path: string) returns (result: string)
    ensures result == LastExtension(path)
  {
    result := "";
    for i := 0 to |path|
      invariant result == ExtensionSlice(path, i)
    {
      ExtensionSliceStep(path, i);
      if path[i] == '/' {
        result := "";
      } else if path[i] == '.' {
        result := path[i..];
      }
    }
    assert path[..|path|] == path;
    LastExtensionSuffix(path);
  }

  /** What the loop of `get_last_extension` holds after `i` characters: a slice of the whole path from the last dot seen. */
  function ExtensionSlice(path: string, i: nat): string
    requires i <= |path|
  {
    var e := LastExtension(path[..i]);
    if e == [] then [] else path[i - |e|..]
  }

  lemma ExtensionSliceStep(path: string, i: nat)
    requires i < |path|
    ensures ExtensionSlice(path, i + 1) ==
      if path[i] == '/' then [] else if path[i] == '.' then path[i..] else ExtensionSlice(path, i)
  {
    LastExtensionStep(path, i);
  }

  /** A path that ends with a `.`, then text with no `.` and no `/`, has exactly that ending as its extension. */
  lemma LastExtensionOfSuffix(path: string, e: string)
    requires |e| <= |path| && path[|path| - |e|..] == e
    requires e != [] && e[0] == '.' && '.' !in e[1..] && '/' !in e
    ensures LastExtension(path) == e
  {
    var ext := LastExtension(path);
    LastExtensionShape(path);
    LastExtensionSuffix(path);
    var d := |path| - |e|;
    assert path[d] == e[0] == '.';
    DropOne(path, d);
    assert e == [e[0]] + e[1..];
    LastExtensionFromDot(path, d);
    var x := |path| - |ext|;
    assert ext[1..] == path[x + 1..];
    assert path[x] == '.';
    assert '.' !in path[d + 1..];
    NoDotPast(path, x, d);
    NoDotPast(path, d, x);
  }

  /** A `.` with no `/` after it gives a non-empty extension. */
  lemma {:induction false} LastExtensionFromDot(path: string, d: nat)
    requires d < |path| && path[d] == '.' && '/' !in path[d + 1..]
    ensures LastExtension(path) != []
  {
    var init, c := path[..|path| - 1], path[|path| - 1];
    if d < |path| - 1 {
      assert path[d + 1..] == init[d + 1..] + [c];
      assert c != '/';
      if c != '.' {
        LastExtensionFromDot(init, d);
      }
    }
  }

  /** Past a position `x` with no `.` after it, no position holds a `.`. */
  lemma NoDotPast(path: string, x: nat, m: nat)
    requires x < |path| && m < |path| && '.' !in path[x + 1..]
    ensures m <= x || path[m] != '.'
  {
    if x < m {
      assert path[m] == path[x + 1..][m - x - 1];
    }
  }

  lemma DropOne<T>(s: seq<T>, d: nat)
    requires d < |s|
    ensures s[d..][1..] == s[d + 1..]
  {
  }

  /** `/Movie.en.vtt` has the extension `.vtt`: only the part after the last dot counts. */
  lemma LastExtensionOfSubtitle()
    ensures LastExtension("/Movie.en.vtt") == ".vtt"
  {
    var path: string := "/Movie.en.vtt";
    assert path[|path| - 4..] == ".vtt";
    LastExtensionOfSuffix(path, ".vtt");
  }

  /*
   * `get_folder_name`
   */

  /** The positions of the `/` characters of `path`, in increasing order. */
  function Slashes(path: string): (s: seq<nat>)
    ensures |s| >= 1 ==> s[|s| - 1] < |path|
    ensures |s| >= 2 ==> s[|s| - 2] < s[|s| - 1]
  {
    if path == [] then []
    else
      var s := Slashes(path[..|path| - 1]);
      if path[|path| - 1] == '/' then s + [|path| - 1] else s
  }

  /** Every listed position holds a `/`. */
  lemma {:induction false} SlashesAreSlashes(path: string)
    ensures forall k :: 0 <= k < |Slashes(path)| ==> Slashes(path)[k] < |path| && path[Slashes(path)[k]] == '/'
  {
    if path != [] {
      var init := path[..|path| - 1];
      SlashesAreSlashes(init);
      assert forall k :: 0 <= k < |init| ==> init[k] == path[k];
    }
  }

  /** The positions are listed in increasing order. */
  lemma {:induction false} SlashesIncreasing(path: string)
    ensures forall k, l :: 0 <= k < l < |Slashes(path)| ==> Slashes(path)[k] < Slashes(path)[l]
  {
    if path != [] {
      var init := path[..|path| - 1];
      SlashesIncreasing(init);
      SlashesAreSlashes(init);
      assert forall k :: 0 <= k < |Slashes(init)| ==> Slashes(init)[k] < |init|;
    }
  }

  /** Every `/` of `path` is listed. */
  lemma {:induction false} SlashListed(path: string, m: nat)
    requires m < |path| && path[m] == '/'
    ensures m in Slashes(path)
  {
    if m < |path| - 1 {
      SlashListed(path[..|path| - 1], m);
    }
  }

  /** The text between the last two `/` of `path`, or empty when it has fewer than two. */
  function FolderName(path: string): string {
    var s := Slashes(path);
    if |s| < 2 then [] else path[s[|s| - 2] + 1..s[|s| - 1]]
  }

  lemma FolderNameOfSlashes(path: string)
    ensures var s := Slashes(path);
      && (|s| < 2 ==> FolderName(path) == [])
      && (|s| >= 2 ==> FolderName(path) == path[s[|s| - 2] + 1..s[|s| - 1]])
  {
  }

  /** The folder name is a single segment: it holds no `/`. */
  lemma FolderNameHasNoSlash(path: string)
    ensures '/' !in FolderName(path)
  {
    var s := Slashes(path);
    if |s| >= 2 {
      var a, b := s[|s| - 2], s[|s| - 1];
      SlashesIncreasing(path);
      forall m | a < m < b ensures path[m] != '/' {
        if path[m] == '/' {
          SlashListed(path, m);
          assert false;
        }
      }
    }
  }

  lemma SlashesStep(path: string, i: nat)
    requires i < |path|
    ensures Slashes(path[..i + 1]) == Slashes(path[..i]) + (if path[i] == '/' then [i] else [])
  {
    assert path[..i + 1][..i] == path[..i];
  }

  /** What the loop of `get_folder_name` holds: one past the second last `/` seen and the last `/` seen, 0 for none. */
  predicate Tracks(s: seq<nat>, begin: nat, end: nat) {
    if |s| == 0 then begin == 0 && end == 0
    else if |s| == 1 then begin == s[0] + 1 && end == 0
    else begin == s[|s| - 2] + 1 && end == s[|s| - 1]
  }

  /** `get_folder_name`: one pass keeping the last two `/` positions seen. */
  method GetFolderName(path: string) returns (name: string)
    ensures name == FolderName(path)
  {
    var begin, end := 0, 0;
    for i := 0 to |path|
      invariant Tracks(Slashes(path[..i]), begin, end)
    {
      SlashesStep(path, i);
      if path[i] != '/' {
        continue;
      }
      ghost var s := Slashes(path[..i]);
      assert Slashes(path[..i + 1]) == s + [i];
      assert |s| >= 2 ==> s[|s| - 1] > s[|s| - 2] >= 0;
      if begin == 0 {
        begin := i + 1;
      } else if end == 0 {
        end := i;
      } else {
        begin := end + 1;
        end := i;
      }
    }
    assert path[..|path|] == path;
    FolderNameOfTracks(path, begin, end);
    if begin == 0 || end == 0 {
      return "";
    }
    return path[begin..end];
  }

  /** What the loop of `get_folder_name` ends with gives the folder name. */
  lemma FolderNameOfTracks(path: string, begin: nat, end: nat)
    requires Tracks(Slashes(path), begin, end)
    ensures begin == 0 || end == 0 ==> FolderName(path) == []
    ensures begin != 0 && end != 0 ==> begin <= end <= |path| && FolderName(path) == path[begin..end]
  {
    var s := Slashes(path);
    FolderNameOfSlashes(path);
    TracksCases(s, begin, end);
  }

  lemma TracksCases(s: seq<nat>, begin: nat, end: nat)
    requires Tracks(s, begin, end)
    ensures |s| < 2 ==> begin == 0 || end == 0
    ensures |s| >= 2 ==> begin == s[|s| - 2] + 1 && end == s[|s| - 1]
  {
  }

  /** With a `/` at `a` and at `b`, and none after `a` except at `b`, the folder name is the text between them. */
  lemma FolderNameBetween(path: string, a: nat, b: nat)
    requires a < b < |path| && path[a] == '/' && path[b] == '/'
    requires forall m :: a < m < |path| && m != b ==> path[m] != '/'
    ensures FolderName(path) == path[a + 1..b]
  {
    var s := Slashes(path);
    SlashListed(path, a);
    SlashListed(path, b);
    SlashesIncreasing(path);
    SlashesAreSlashes(path);
    var ka :| 0 <= ka < |s| && s[ka] == a;
    var kb :| 0 <= kb < |s| && s[kb] == b;
    assert s[kb] <= s[|s| - 1];
    assert s[|s| - 1] == b;
    assert kb == |s| - 1;
    assert ka < kb;
    assert s[ka] <= s[|s| - 2] < b;
    assert s[|s| - 2] == a;
  }

  lemma TwoSlashesCounted(path: string, a: nat, b: nat)
    requires a < b < |path| && path[a] == '/' && path[b] == '/'
    ensures multiset(path)['/'] >= 2
  {
    assert path == path[..a] + [path[a]] + path[a + 1..b] + [path[b]] + path[b + 1..];
  }

  /** A path with fewer than two `/` has an empty folder name. */
  lemma {:induction false} FolderNameOfShallowPath(path: string)
    requires multiset(path)['/'] < 2
    ensures FolderName(path) == []
  {
    var s := Slashes(path);
    if |s| >= 2 {
      SlashesIncreasing(path);
      SlashesAreSlashes(path);
      assert s[0] < s[1];
      TwoSlashesCounted(path, s[0], s[1]);
      assert false;
    }
  }

  /*
   * `escape_html`
   */

  /** `Cow<str>`: the input itself when nothing needed escaping, else a new string. */
  datatype Cow = Borrowed(borrowed: string) | Owned(owned: string)

  function CowText(c: Cow): string {
    match c
    case Borrowed(s) => s
    case Owned(s) => s
  }

  /** The characters with a meaning in HTML markup. */
  predicate IsSpecial(c: char) {
    c == '"' || c == '&' || c == '\'' || c == '<' || c == '>'
  }

  predicate NoSpecials(s: string) {
    forall k :: 0 <= k < |s| ==> !IsSpecial(s[k])
  }

  /** The character reference written for a special character. */
  function Entity(c: char): (e: string)
    requires IsSpecial(c)
    ensures |e| >= 4 && e[0] == '&' && e[|e| - 1] == ';'
  {
    match c
    case '"' => "&quot;"
    case '&' => "&amp;"
    case '\'' => "&apos;"
    case '<' => "&lt;"
    case '>' => "&gt;"
  }

  function EscapeChar(c: char): string {
    if IsSpecial(c) then Entity(c) else [c]
  }

  /** Every special character replaced by its reference, every other one kept, in order. */
  function Escaped(s: string): string {
    if s == [] then [] else EscapeChar(s[0]) + Escaped(s[1..])
  }

  lemma {:induction false} EscapedAppend(s: string, c: char)
    ensures Escaped(s + [c]) == Escaped(s) + EscapeChar(c)
  {
    if s != [] {
      assert (s + [c])[1..] == s[1..] + [c];
      EscapedAppend(s[1..], c);
    } else {
      assert Escaped([c]) == EscapeChar(c) + Escaped([]);
    }
  }

  lemma {:induction false} EscapedPlain(s: string)
    requires NoSpecials(s)
    ensures Escaped(s) == s
  {
    if s != [] {
      EscapedPlain(s[1..]);
    }
  }

  /** `escape_html`: copy lazily, only once the first special character shows up. */
  method EscapeHtml(slice: string) returns (r: Cow)
    ensures CowText(r) == Escaped(slice)
    ensures r.Borrowed? <==> NoSpecials(slice)
    ensures r.Borrowed? ==> r.borrowed == slice
  {
    var escapedString := "";
    var foundSpecial := false;
    ghost var specialAt := 0;
    for i := 0 to |slice|
      invariant foundSpecial ==> escapedString == Escaped(slice[..i]) && escapedString != []
      invariant foundSpecial ==> specialAt < i && IsSpecial(slice[specialAt])
      invariant !foundSpecial ==> escapedString == [] && NoSpecials(slice[..i])
    {
      var c := slice[i];
      assert slice[..i + 1] == slice[..i] + [c];
      EscapedAppend(slice[..i], c);
      if !IsSpecial(c) {
        if foundSpecial {
          escapedString := escapedString + [c];
        } else {
          NoSpecialsAppend(slice[..i], c);
        }
        continue;
      }
      var escapedChar := Entity(c);
      if !foundSpecial {
        foundSpecial := true;
        specialAt := i;
        EscapedPlain(slice[..i]);
        escapedString := escapedString + slice[..i];
      }
      escapedString := escapedString + escapedChar;
    }
    assert slice[..|slice|] == slice;
    if escapedString == [] {
      EscapedPlain(slice);
      return Borrowed(slice);
    }
    assert !NoSpecials(slice) by {
      assert IsSpecial(slice[specialAt]);
    }
    return Owned(escapedString);
  }

  lemma NoSpecialsAppend(s: string, c: char)
    requires NoSpecials(s) && !IsSpecial(c)
    ensures NoSpecials(s + [c])
  {
  }

  /** Escaped text holds no quote, apostrophe or angle bracket: it cannot open or close markup or an attribute. */
  lemma {:induction false} EscapedHasNoMarkup(s: string)
    ensures forall k :: 0 <= k < |Escaped(s)| ==> var c := Escaped(s)[k]; c != '"' && c != '\'' && c != '<' && c != '>'
  {
    if s != [] {
      EscapedHasNoMarkup(s[1..]);
      var e, rest := EscapeChar(s[0]), Escaped(s[1..]);
      forall k | 0 <= k < |e| ensures e[k] != '"' && e[k] != '\'' && e[k] != '<' && e[k] != '>' {
      }
      assert forall k :: |e| <= k < |e + rest| ==> (e + rest)[k] == rest[k - |e|];
    }
  }

  /** Escaping changes a text exactly when it holds a special character. */
  lemma {:induction false} EscapedUnchangedIff(s: string)
    ensures Escaped(s) == s <==> NoSpecials(s)
    ensures |Escaped(s)| >= |s|
  {
    if s != [] {
      EscapedUnchangedIff(s[1..]);
      if IsSpecial(s[0]) {
        assert |Escaped(s)| > |s|;
      } else if Escaped(s) == s {
        assert Escaped(s[1..]) == Escaped(s)[1..];
      }
    }
  }

  predicate StartsWithText(t: string, p: string) {
    |p| <= |t| && t[..|p|] == p
  }

  /** Reads character references back, as a browser does for these five. */
  function Unescape(t: string): string
    decreases |t|
  {
    if t == [] then []
    else if t[0] != '&' then [t[0]] + Unescape(t[1..])
    else if StartsWithText(t, "&quot;") then ['"'] + Unescape(t[6..])
    else if StartsWithText(t, "&amp;") then ['&'] + Unescape(t[5..])
    else if StartsWithText(t, "&apos;") then ['\''] + Unescape(t[6..])
    else if StartsWithText(t, "&lt;") then ['<'] + Unescape(t[4..])
    else if StartsWithText(t, "&gt;") then ['>'] + Unescape(t[4..])
    else [t[0]] + Unescape(t[1..])
  }

  lemma UnescapeEntity(c: char, rest: string)
    requires IsSpecial(c)
    ensures Unescape(Entity(c) + rest) == [c] + Unescape(rest)
  {
    if c == '"' {
      UnescapeQuot(rest);
    } else if c == '&' {
      UnescapeAmp(rest);
    } else if c == '\'' {
      UnescapeApos(rest);
    } else if c == '<' {
      UnescapeLt(rest);
    } else {
      UnescapeGt(rest);
    }
  }

  lemma PrefixOf(p: string, rest: string)
    ensures StartsWithText(p + rest, p) && (p + rest)[|p|..] == rest
  {
    assert (p + rest)[..|p|] == p;
  }

  lemma UnescapeQuot(rest: string)
    ensures Unescape("&quot;" + rest) == ['"'] + Unescape(rest)
  {
    PrefixOf("&quot;", rest);
  }

  /** A text that differs from `p` at some position inside both does not start with `p`. */
  lemma Mismatch(t: string, p: string, i: nat)
    requires i < |p| && i < |t| && t[i] != p[i]
    ensures !StartsWithText(t, p)
  {
    if |p| <= |t| {
      assert t[..|p|][i] == t[i];
    }
  }

  lemma UnescapeAmp(rest: string)
    ensures Unescape("&amp;" + rest) == ['&'] + Unescape(rest)
  {
    var t := "&amp;" + rest;
    PrefixOf("&amp;", rest);
    Mismatch(t, "&quot;", 1);
  }

  lemma UnescapeApos(rest: string)
    ensures Unescape("&apos;" + rest) == ['\''] + Unescape(rest)
  {
    var t := "&apos;" + rest;
    PrefixOf("&apos;", rest);
    Mismatch(t, "&quot;", 1);
    Mismatch(t, "&amp;", 2);
  }

  lemma UnescapeLt(rest: string)
    ensures Unescape("&lt;" + rest) == ['<'] + Unescape(rest)
  {
    var t := "&lt;" + rest;
    PrefixOf("&lt;", rest);
    Mismatch(t, "&quot;", 1);
    Mismatch(t, "&amp;", 1);
    Mismatch(t, "&apos;", 1);
  }

  lemma UnescapeGt(rest: string)
    ensures Unescape("&gt;" + rest) == ['>'] + Unescape(rest)
  {
    var t := "&gt;" + rest;
    PrefixOf("&gt;", rest);
    Mismatch(t, "&quot;", 1);
    Mismatch(t, "&amp;", 1);
    Mismatch(t, "&apos;", 1);
    Mismatch(t, "&lt;", 1);
  }

  lemma UnescapePlain(c: char, rest: string)
    requires !IsSpecial(c)
    ensures Unescape([c] + rest) == [c] + Unescape(rest)
  {
    assert ([c] + rest)[1..] == rest;
  }

  /** Reading the escaped text back gives the original text. */
  lemma {:induction false} UnescapeEscaped(s: string)
    ensures Unescape(Escaped(s)) == s
  {
    if s != [] {
      UnescapeEscaped(s[1..]);
      if IsSpecial(s[0]) {
        UnescapeEntity(s[0], Escaped(s[1..]));
      } else {
        UnescapePlain(s[0], Escaped(s[1..]));
      }
      assert s == [s[0]] + s[1..];
    }
  }
}
