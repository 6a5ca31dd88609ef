/** A file name split into the part before its first dot and the rest. */
module NameParts {

  /** `NameParts`: `basename` is everything before the first dot, `extension` the first dot to the end. */
  datatype NameParts = NameParts(basename: string, extension: string)

  /** The three facts that pin down a split at the first dot. */
  predicate SplitsAtFirstDot(name: string, p: NameParts) {
    && p.basename + p.extension == name
    && '.' !in p.basename
    && (p.extension == [] || p.extension[0] == '.')
  }

  /** The split as a value, for use by the other specification functions. */
  function Split(name: string): (p: NameParts)
    ensures SplitsAtFirstDot(name, p)
    ensures '.' !in name ==> p == NameParts(name, [])
  {
    if name == [] then NameParts([], [])
    else if name[0] == '.' then NameParts([], name)
    else
      var rest := Split(name[1..]);
      assert [name[0]] + rest.basename + rest.extension == name;
      NameParts([name[0]] + rest.basename, rest.extension)
  }

  /** Only one split of a name meets the three facts, so they specify `Split` completely. */
  lemma {:induction false} SplitUnique(name: string, p: NameParts)
    requires SplitsAtFirstDot(name, p)
    ensures p == Split(name)
  {
    if name != [] && name[0] != '.' {
      assert p.basename != [] by {
        assert p.basename == [] ==> p.extension == name;
      }
      var q := NameParts(p.basename[1..], p.extension);
      assert q.basename + q.extension == name[1..] by {
        assert p.basename + p.extension == [p.basename[0]] + (q.basename + q.extension);
      }
      assert '.' !in q.basename by {
        forall k | 0 <= k < |q.basename| ensures q.basename[k] != '.' {
          assert q.basename[k] == p.basename[k + 1];
        }
      }
      SplitUnique(name[1..], q);
      assert p.basename == [name[0]] + q.basename;
    }
  }

  /** `NameParts::new`: scan for the first dot and split there. */
  method New(name: string) returns (parts: NameParts)
    ensures parts == Split(name)
  {
    var basename := name;
    var extension := "";
    for i := 0 to |name|
      invariant basename == name && extension == ""
      invariant forall k :: 0 <= k < i ==> name[k] != '.'
    {
      if name[i] == '.' {
        basename := name[..i];
        extension := name[i..];
        break;
      }
    }
    parts := NameParts(basename, extension);
    assert name[..|name|] == name;
    SplitUnique(name, parts);
  }
}
