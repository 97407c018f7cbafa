/** The two ways the scripts take the extension off an entry name:
    `os.path.splitext` (filter.py) and `pathlib.PurePath.stem` (cleanup_input.py).
    Names here are single path components: they hold no separator.
 */
module Paths {
  import opened Text

  predicate HasNonDot(s: string) {
    exists k :: 0 <= k < |s| && s[k] != '.'
  }

  /** The base `os.path.splitext` returns: the text before the last '.', unless
      every character before that dot is itself a dot (leading dots never start an
      extension), in which case the whole name. */
  function SplitExtBase(name: string): (base: string)
    ensures |base| <= |name| && base == name[..|base|]
    ensures base != name ==> name[|base|] == '.' && HasNonDot(base)
    ensures base != name ==> forall k :: |base| < k < |name| ==> name[k] != '.'
    ensures base == name ==> var i := RFind(name, '.'); i < 0 || !HasNonDot(name[..i])
  {
    var i := RFind(name, '.');
    if i > 0 && HasNonDot(name[..i]) then name[..i] else name
  }

  /** `PurePath.stem` as CPython 3.8 to 3.12 define it: the text before the last '.',
      unless that dot is the first or the last character, in which case the whole name. */
  function Stem(name: string): (stem: string)
    ensures |stem| <= |name| && stem == name[..|stem|]
    ensures stem != name ==> 0 < |stem| < |name| - 1 && name[|stem|] == '.'
    ensures stem != name ==> forall k :: |stem| < k < |name| ==> name[k] != '.'
    ensures stem == name ==> var i := RFind(name, '.'); i <= 0 || i == |name| - 1
  {
    var i := RFind(name, '.');
    if 0 < i < |name| - 1 then name[..i] else name
  }

  /** A name whose extension, if any, follows a dot that is neither its first nor its
      last character: the names on which the two notions of "extension" agree. */
  predicate PlainName(name: string) {
    '.' !in name || (name[0] != '.' && name[|name| - 1] != '.')
  }

  /** On plain names, `splitext` and `stem` strip the same extension. */
  lemma StemMatchesSplitExt(name: string)
    requires PlainName(name)
    ensures Stem(name) == SplitExtBase(name)
  {
    var i := RFind(name, '.');
    if i >= 0 {
      assert name[0] != '.';
      assert HasNonDot(name[..i]) by {
        assert name[..i][0] != '.';
      }
    } else {
      assert '.' !in name;
    }
  }

  /** A plain name with a dot is its stem, a dot and its final extension; a name
      without a dot is its own stem. */
  lemma StemSplitsPlainName(name: string)
    requires PlainName(name)
    ensures '.' !in name ==> Stem(name) == name
    ensures '.' in name ==> Stem(name) != [] && name == Stem(name) + "." + AfterLastDot(name)
  {
    var i := RFind(name, '.');
    if '.' in name {
      assert i >= 0;
      assert name == name[..i] + "." + name[i + 1..];
    }
  }

  /** The example from cleanup_input.py's docstring. */
  lemma StemExample()
    ensures Stem("cve-2024-56827.json") == "cve-2024-56827"
  {
    var name := "cve-2024-56827.json";
    assert name[14] == '.';
    assert PlainName(name);
    AfterLastDotUnique(name, "json");
    StemSplitsPlainName(name);
  }
}
