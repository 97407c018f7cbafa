/** filter.py: read names from a JSON manifest, take the ending of each name (the
    text after its last '.'), and split the regular files of the input directory into
    those whose `splitext` base is one of the endings (kept) and the rest (removed),
    deleting the removed ones only when asked to.
 */
module Filter {
  import opened Text
  import opened Seqs
  import opened Json
  import opened Paths
  import opened Workspace

  /** Fields tried, in order, for the name held by an object item. */
  const ItemFields: seq<string> := ["name", "filename", "file"]

  /** Fields tried, in order, for the list held by a wrapping object. */
  const ArrayFields: seq<string> := ["repos", "files", "items", "data", "entries"]

  /** Exit statuses of the fatal errors. */
  const ReadFailure: int := 1
  const NoNames: int := 2
  const NoInputDir: int := 3

  /** The fields to try: the `--json-key` value when it is given and non-empty
      (Python treats "" as false), the defaults otherwise. */
  function Candidates(key: Option<string>, defaults: seq<string>): (ks: seq<string>)
    ensures key.None? ==> ks == defaults
    ensures key == Some("") ==> ks == defaults
    ensures key.Some? && key.value != "" ==> ks == [key.value]
  {
    if key.Some? && key.value != "" then [key.value] else defaults
  }

  /** What the nested `add` appends for one value: nothing for null, otherwise the
      value's text with surrounding whitespace stripped, unless that leaves nothing.
      `pyStr` stands for Python's `str()` on a value that is not a string. */
  function Added(v: JsonValue, pyStr: JsonValue -> string): (r: Option<string>)
    ensures r.Some? ==> r.value != [] && Stripped(r.value)
    ensures v.JNull? ==> r.None?
    ensures v.JString? ==> (r.None? <==> AllSpace(v.s))
    ensures !v.JNull? ==> var t := if v.JString? then v.s else pyStr(v);
                          && (r.None? <==> AllSpace(t))
                          && (r.Some? ==> IsMiddle(t, r.value))
  {
    if v.JNull? then None
    else
      var t := Strip(if v.JString? then v.s else pyStr(v));
      if t == [] then None else Some(t)
  }

  /** The name one list item contributes. A bare string counts only when no key was
      given; an object contributes what `add` makes of its first candidate field that
      is present, and nothing when none is; anything else contributes nothing. */
  function ItemName(item: JsonValue, key: Option<string>, pyStr: JsonValue -> string): (r: Option<string>)
    ensures r.Some? ==> r.value != [] && Stripped(r.value)
    ensures r.Some? ==> (item.JString? && key.None?) || item.JObject?
    ensures item.JString? && key.None? ==> (r.None? <==> AllSpace(item.s))
    ensures item.JString? && key.None? && r.Some? ==> IsMiddle(item.s, r.value)
  {
    match item
    case JString(_) => if key.None? then Added(item, pyStr) else None
    case JObject(m) =>
      var ks := Candidates(key, ItemFields);
      (match FirstWhere(ks, k => k in m)
       case Some(i) => Added(m[ks[i]], pyStr)
       case None => None)
    case _ => None
  }

  /** An empty `--json-key` counts as no key for choosing fields, yet it still
      turns bare strings off: the defaults are tried for objects and for wrappers,
      and a bare string yields nothing. */
  lemma EmptyKeyKeepsDefaults(s: string, pyStr: JsonValue -> string)
    ensures Candidates(Some(""), ItemFields) == ItemFields
    ensures Candidates(Some(""), ArrayFields) == ArrayFields
    ensures ItemName(JString(s), Some(""), pyStr) == None
  {
  }

  /** An object item takes its name from the first candidate field it has, even when
      that field yields nothing and a later candidate would have yielded a name. */
  lemma ObjectItemUsesFirstPresentField(m: map<string, JsonValue>, key: Option<string>, pyStr: JsonValue -> string, i: nat)
    requires var ks := Candidates(key, ItemFields); i < |ks| && ks[i] in m && forall j :: 0 <= j < i ==> ks[j] !in m
    ensures ItemName(JObject(m), key, pyStr) == Added(m[Candidates(key, ItemFields)[i]], pyStr)
  {
    var ks := Candidates(key, ItemFields);
    FirstWhereIs(ks, k => k in m, i);
  }

  /** An object item with none of the candidate fields contributes nothing. */
  lemma ObjectItemWithoutFields(m: map<string, JsonValue>, key: Option<string>, pyStr: JsonValue -> string)
    requires var ks := Candidates(key, ItemFields); forall j :: 0 <= j < |ks| ==> ks[j] !in m
    ensures ItemName(JObject(m), key, pyStr) == None
  {
  }

  /** `ItemName` as one closure value: every mention of it is the same term, so the
      generic facts about `FilterMap` apply to `ListNames` without re-proof. */
  function ItemNameOf(key: Option<string>, pyStr: JsonValue -> string): JsonValue -> Option<string> {
    item => ItemName(item, key, pyStr)
  }

  /** The names of a list's items, in item order, duplicates included: a name is
      there exactly when some item contributes it. */
  function ListNames(items: seq<JsonValue>, key: Option<string>, pyStr: JsonValue -> string): (names: seq<string>)
    ensures |names| <= |items|
    ensures forall n :: n in names <==> exists i :: 0 <= i < |items| && ItemName(items[i], key, pyStr) == Some(n)
    ensures forall n :: n in names ==> n != [] && Stripped(n)
  {
    var names := FilterMap(items, ItemNameOf(key, pyStr));
    assert forall n :: n in names <==> exists i :: 0 <= i < |items| && ItemName(items[i], key, pyStr) == Some(n) by {
      forall n {
        FilterMapMembers(items, ItemNameOf(key, pyStr), n);
      }
    }
    names
  }

  /** A list of no items names nothing; one item names what `ItemName` makes of it. */
  lemma ListNamesOfItem(item: JsonValue, key: Option<string>, pyStr: JsonValue -> string)
    ensures ListNames([], key, pyStr) == []
    ensures ListNames([item], key, pyStr) == if ItemName(item, key, pyStr).Some? then [ItemName(item, key, pyStr).value] else []
  {
    FilterMapOfOne(item, ItemNameOf(key, pyStr));
  }

  /** The names of two lists read one after the other are the names of the first
      followed by the names of the second: item order and duplicates are kept. */
  lemma ListNamesConcat(xs: seq<JsonValue>, ys: seq<JsonValue>, key: Option<string>, pyStr: JsonValue -> string)
    ensures ListNames(xs + ys, key, pyStr) == ListNames(xs, key, pyStr) + ListNames(ys, key, pyStr)
  {
    FilterMapConcat(xs, ys, ItemNameOf(key, pyStr));
  }

  /** `collect_names` applied to a list. */
  function ArrayNames(items: seq<JsonValue>, key: Option<string>, pyStr: JsonValue -> string): (names: seq<string>)
    ensures NoDups(names)
    ensures forall n :: n in names ==> n != [] && Stripped(n)
    ensures forall n :: n in names <==> n in ListNames(items, key, pyStr)
    ensures forall n :: n in names <==> exists i :: 0 <= i < |items| && ItemName(items[i], key, pyStr) == Some(n)
    ensures var raw := ListNames(items, key, pyStr);
            forall i, j :: 0 <= i < j < |names| ==> FirstIndex(raw, names[i]) < FirstIndex(raw, names[j])
  {
    Dedup(ListNames(items, key, pyStr))
  }

  /** `collect_names`: the distinct names of the manifest, in order of first occurrence.
      A list is read item by item; a wrapping object is read through the first
      candidate field that holds a list; any other value yields no name. */
  function CollectNames(data: JsonValue, key: Option<string>, pyStr: JsonValue -> string): (names: seq<string>)
    ensures NoDups(names)
    ensures forall n :: n in names ==> n != [] && Stripped(n)
    ensures !data.JArray? && !data.JObject? ==> names == []
    ensures data.JArray? ==>
              forall n :: n in names <==> exists i :: 0 <= i < |data.items| && ItemName(data.items[i], key, pyStr) == Some(n)
    ensures data.JArray? ==> InFirstOccurrenceOrder(names, ListNames(data.items, key, pyStr))
  {
    match data
    case JArray(items) =>
      ArrayNames(items, key, pyStr)
    case JObject(m) => WrapperNames(m, key, pyStr)
    case _ => []
  }

  /** `collect_names` applied to a wrapping object. */
  function WrapperNames(m: map<string, JsonValue>, key: Option<string>, pyStr: JsonValue -> string): (names: seq<string>)
    ensures NoDups(names)
    ensures forall n :: n in names ==> n != [] && Stripped(n)
  {
    var ks := Candidates(key, ArrayFields);
    match FirstWhere(ks, k => k in m && m[k].JArray?)
    case Some(i) => Dedup(ArrayNames(m[ks[i]].items, key, pyStr))
    case None => []
  }

  /** A wrapping object yields exactly what its first list-valued candidate field
      yields; later candidates are never looked at. */
  lemma WrapperUsesFirstListField(m: map<string, JsonValue>, key: Option<string>, pyStr: JsonValue -> string, i: nat)
    requires var ks := Candidates(key, ArrayFields);
             && i < |ks| && ks[i] in m && m[ks[i]].JArray?
             && forall j :: 0 <= j < i ==> !(ks[j] in m && m[ks[j]].JArray?)
    ensures CollectNames(JObject(m), key, pyStr) == CollectNames(m[Candidates(key, ArrayFields)[i]], key, pyStr)
  {
    var ks := Candidates(key, ArrayFields);
    var list := m[ks[i]];
    WrapperNamesAt(m, key, pyStr, i);
    assert CollectNames(JObject(m), key, pyStr) == WrapperNames(m, key, pyStr);
    assert CollectNames(list, key, pyStr) == ArrayNames(list.items, key, pyStr);
  }

  lemma WrapperNamesAt(m: map<string, JsonValue>, key: Option<string>, pyStr: JsonValue -> string, i: nat)
    requires var ks := Candidates(key, ArrayFields);
             && i < |ks| && ks[i] in m && m[ks[i]].JArray?
             && forall j :: 0 <= j < i ==> !(ks[j] in m && m[ks[j]].JArray?)
    ensures WrapperNames(m, key, pyStr) == ArrayNames(m[Candidates(key, ArrayFields)[i]].items, key, pyStr)
  {
    var ks := Candidates(key, ArrayFields);
    FirstWhereIs(ks, k => k in m && m[k].JArray?, i);
    DedupOfDistinct(ArrayNames(m[ks[i]].items, key, pyStr));
  }

  /** A wrapping object with no list-valued candidate field yields no name. */
  lemma WrapperWithoutList(m: map<string, JsonValue>, key: Option<string>, pyStr: JsonValue -> string)
    requires var ks := Candidates(key, ArrayFields); forall j :: 0 <= j < |ks| ==> !(ks[j] in m && m[ks[j]].JArray?)
    ensures CollectNames(JObject(m), key, pyStr) == []
  {
  }

  /** The ending of every name, in name order. */
  function Endings(names: seq<string>): (r: seq<string>)
    ensures |r| == |names|
    ensures forall i :: 0 <= i < |names| ==> r[i] == AfterLastDot(names[i])
  {
    seq(|names|, i requires 0 <= i < |names| => AfterLastDot(names[i]))
  }

  /** `endings_from_names`: the distinct endings, in order of first occurrence.
      An ending never holds a '.', and there is at least one ending per non-empty
      list of names. */
  function EndingsFromNames(names: seq<string>): (endings: seq<string>)
    ensures NoDups(endings)
    ensures |endings| <= |names|
    ensures |names| > 0 ==> |endings| > 0
    ensures forall e :: e in endings ==> '.' !in e
    ensures forall e :: e in endings <==> e in Endings(names)
    ensures forall i, j :: 0 <= i < j < |endings| ==> FirstIndex(Endings(names), endings[i]) < FirstIndex(Endings(names), endings[j])
  {
    var all := Endings(names);
    var endings := Dedup(all);
    assert |names| > 0 ==> all[0] in endings;
    assert forall e :: e in all ==> '.' !in e by {
      forall e | e in all ensures '.' !in e {
        var i :| 0 <= i < |all| && all[i] == e;
        assert e == AfterLastDot(names[i]);
      }
    }
    endings
  }

  /** Endings are their own endings: deriving them again from the derived list gives
      the same list. */
  lemma EndingsFromNamesIsStable(names: seq<string>)
    ensures var endings := EndingsFromNames(names); EndingsFromNames(endings) == endings
  {
    var endings := EndingsFromNames(names);
    forall i | 0 <= i < |endings|
      ensures AfterLastDot(endings[i]) == endings[i]
    {
      AfterLastDotUnique(endings[i], endings[i]);
    }
    assert Endings(endings) == endings;
    DedupOfDistinct(endings);
  }

  /** How a string is compared: as it is in case-sensitive mode, lower-cased otherwise. */
  function Fold(s: string, caseSensitive: bool): (r: string)
    ensures caseSensitive ==> r == s
    ensures !caseSensitive ==> EqualIgnoringCase(r, s)
    ensures !caseSensitive ==> forall i :: 0 <= i < |r| ==> !IsUpperAscii(r[i])
  {
    if caseSensitive then s else Lower(s)
  }

  /** When two strings count as the same: exactly equal in case-sensitive mode,
      equal up to ASCII case otherwise. */
  predicate SameText(s: string, t: string, caseSensitive: bool) {
    if caseSensitive then s == t else EqualIgnoringCase(s, t)
  }

  /** Folding is the comparison the script means: two strings fold to the same text
      exactly when they count as the same in the mode. */
  lemma FoldMatchIff(s: string, t: string, caseSensitive: bool)
    ensures Fold(s, caseSensitive) == Fold(t, caseSensitive) <==> SameText(s, t, caseSensitive)
  {
    if !caseSensitive {
      LowerEqualIff(s, t);
    }
  }

  /** `ABC` and `abc` match by default and do not match in case-sensitive mode. */
  lemma CaseFoldingExample()
    ensures Fold("ABC", false) == Fold("abc", false)
    ensures Fold("ABC", true) != Fold("abc", true)
  {
    assert "ABC"[0] != "abc"[0];
    FoldMatchIff("ABC", "abc", false);
  }

  /** The lookup set built from the endings: their folded forms, which in
      case-sensitive mode are the endings themselves. */
  function Allowed(endings: seq<string>, caseSensitive: bool): (r: set<string>)
    ensures forall a :: a in r <==> exists e :: e in endings && Fold(e, caseSensitive) == a
    ensures caseSensitive ==> forall a :: a in r <==> a in endings
  {
    set e | e in endings :: Fold(e, caseSensitive)
  }

  lemma AllowedOfOne(e: string, caseSensitive: bool)
    ensures Allowed([e], caseSensitive) == {Fold(e, caseSensitive)}
  {
    var allowed := Allowed([e], caseSensitive);
    assert e in [e];
    forall a | a in allowed
      ensures a == Fold(e, caseSensitive)
    {
      var x :| x in [e] && Fold(x, caseSensitive) == a;
    }
  }

  /** What is looked up for an entry: its `splitext` base, folded like the endings:
      the base itself in case-sensitive mode, otherwise the base with every ASCII
      letter made lower-case and nothing else changed. */
  function EntryKey(e: Entry, caseSensitive: bool): (k: string)
    ensures caseSensitive ==> k == SplitExtBase(e.name)
    ensures !caseSensitive ==> EqualIgnoringCase(k, SplitExtBase(e.name))
    ensures !caseSensitive ==> forall i :: 0 <= i < |k| ==> !IsUpperAscii(k[i])
  {
    Fold(SplitExtBase(e.name), caseSensitive)
  }

  predicate IsRegularFile(e: Entry) {
    e.kind == File
  }

  function KeepTest(allowed: set<string>, caseSensitive: bool): Entry -> bool {
    (e: Entry) => e.kind == File && EntryKey(e, caseSensitive) in allowed
  }

  function RemoveTest(allowed: set<string>, caseSensitive: bool): Entry -> bool {
    (e: Entry) => e.kind == File && EntryKey(e, caseSensitive) !in allowed
  }

  /** The scan loop: in one pass over the entries, skip everything that is not a
      regular file and append each file to `kept` or to `removed`. The result is the
      files that match, in scan order, and the files that do not, in scan order. */
  function Classify(entries: seq<Entry>, allowed: set<string>, caseSensitive: bool): (r: (seq<Entry>, seq<Entry>))
    ensures r.0 == Select(entries, KeepTest(allowed, caseSensitive))
    ensures r.1 == Select(entries, RemoveTest(allowed, caseSensitive))
  {
    if |entries| == 0 then ([], [])
    else
      var prefix := entries[..|entries| - 1];
      var e := entries[|entries| - 1];
      var front := Classify(prefix, allowed, caseSensitive);
      var keep := KeepTest(allowed, caseSensitive);
      var remove := RemoveTest(allowed, caseSensitive);
      SelectLast(entries, keep);
      SelectLast(entries, remove);
      if keep(e) then (front.0 + [e], front.1)
      else if remove(e) then (front.0, front.1 + [e])
      else front
  }

  /** `kept` and `removed` share out the regular files between them: each file is in
      exactly one of the two, and directories and other entries are in neither. */
  lemma ClassifyPartitionsFiles(entries: seq<Entry>, allowed: set<string>, caseSensitive: bool)
    ensures var r := Classify(entries, allowed, caseSensitive);
            && multiset(r.0) + multiset(r.1) == multiset(Select(entries, IsRegularFile))
            && |r.0| + |r.1| == |Select(entries, IsRegularFile)|
  {
    SelectPartition(entries, IsRegularFile, KeepTest(allowed, caseSensitive), RemoveTest(allowed, caseSensitive));
  }

  /** A file is kept exactly when its base, folded, equals some ending, folded the
      same way, and removed exactly when it equals none. */
  lemma KeptIffBaseIsAnEnding(entries: seq<Entry>, endings: seq<string>, caseSensitive: bool, e: Entry)
    ensures var r := Classify(entries, Allowed(endings, caseSensitive), caseSensitive);
            && (e in r.0 <==> e in entries && e.kind == File
                               && exists en :: en in endings && Fold(en, caseSensitive) == Fold(SplitExtBase(e.name), caseSensitive))
            && (e in r.1 <==> e in entries && e.kind == File
                               && forall en :: en in endings ==> Fold(en, caseSensitive) != Fold(SplitExtBase(e.name), caseSensitive))
  {
  }

  /** The same, with the comparison spelled out: a file is kept exactly when its base
      is the same text as some ending (up to ASCII case unless case-sensitive). */
  lemma KeptIffBaseIsSameTextAsEnding(entries: seq<Entry>, endings: seq<string>, caseSensitive: bool, e: Entry)
    ensures var r := Classify(entries, Allowed(endings, caseSensitive), caseSensitive);
            e in r.0 <==> e in entries && e.kind == File
                          && exists en :: en in endings && SameText(en, SplitExtBase(e.name), caseSensitive)
  {
    var base := SplitExtBase(e.name);
    KeptIffBaseIsAnEnding(entries, endings, caseSensitive, e);
    forall en | en in endings
      ensures Fold(en, caseSensitive) == Fold(base, caseSensitive) <==> SameText(en, base, caseSensitive)
    {
      FoldMatchIff(en, base, caseSensitive);
    }
  }

  /** The ending of some name, folded, equals `key`. */
  predicate MatchesSomeName(names: seq<string>, key: string, caseSensitive: bool) {
    exists i :: 0 <= i < |names| && Fold(AfterLastDot(names[i]), caseSensitive) == key
  }

  /** The outcome of one run: a fatal exit status the script chooses, an uncaught
      exception, or the two lists and the deletions attempted. */
  datatype FilterRun =
    | Exit(code: int)
    | Crashed
    | Finished(kept: seq<Entry>, removed: seq<Entry>, deletions: seq<Attempt>)

  /** The body of `main`, with the manifest, the directory listing and the answer of
      each `os.remove` given as inputs. */
  function RunFilter(manifest: ManifestFile, jsonKey: Option<string>, pyStr: JsonValue -> string,
                     inputDir: InputDir, deleteNonMatching: bool, caseSensitive: bool,
                     deletes: Entry -> bool): (run: FilterRun)
    ensures run.Exit? ==> run.code in {ReadFailure, NoNames, NoInputDir}
    ensures run == Exit(ReadFailure) <==> !manifest.Decoded?
    ensures run.Finished? ==> inputDir.Listing?
    ensures run.Crashed? <==> manifest.Decoded? && CollectNames(manifest.value, jsonKey, pyStr) != [] && inputDir.Unlistable?
    ensures run.Finished? && !deleteNonMatching ==> run.deletions == []
    ensures run.Finished? && deleteNonMatching ==>
              |run.deletions| == |run.removed| && forall i :: 0 <= i < |run.removed| ==> run.deletions[i].entry == run.removed[i]
  {
    if !manifest.Decoded? then Exit(ReadFailure)
    else
      var names := CollectNames(manifest.value, jsonKey, pyStr);
      if |names| == 0 then Exit(NoNames)
      else
        var endings := EndingsFromNames(names);
        if |endings| == 0 then Exit(NoNames)
        else
          var allowed := Allowed(endings, caseSensitive);
          if inputDir.Missing? || inputDir.NotADirectory? then Exit(NoInputDir)
          else if inputDir.Unlistable? then Crashed
          else
            var r := Classify(inputDir.entries, allowed, caseSensitive);
            Finished(r.0, r.1, if deleteNonMatching then DeleteEach(r.1, deletes) else [])
  }

  /** The fatal errors are checked in order, before the directory is scanned: an
      unreadable manifest exits 1, a manifest without names exits 2, an input path
      that is missing or not a directory exits 3. A directory that cannot be listed
      passes that check and then crashes the scan; otherwise the run finishes. The
      second check for an empty list of endings never decides the outcome. */
  lemma ExitStatuses(manifest: ManifestFile, jsonKey: Option<string>, pyStr: JsonValue -> string,
                     inputDir: InputDir, deleteNonMatching: bool, caseSensitive: bool, deletes: Entry -> bool)
    ensures var run := RunFilter(manifest, jsonKey, pyStr, inputDir, deleteNonMatching, caseSensitive, deletes);
            && (run == Exit(NoNames) <==> manifest.Decoded? && CollectNames(manifest.value, jsonKey, pyStr) == [])
            && (run == Exit(NoInputDir) <==>
                  manifest.Decoded? && CollectNames(manifest.value, jsonKey, pyStr) != []
                  && (inputDir.Missing? || inputDir.NotADirectory?))
            && (run.Finished? <==>
                  manifest.Decoded? && CollectNames(manifest.value, jsonKey, pyStr) != [] && inputDir.Listing?)
  {
  }

  /** Classifying against the endings of `names` keeps exactly the regular files
      whose folded base is the folded ending of some name, and removes the others. */
  lemma KeptIffBaseMatchesName(entries: seq<Entry>, names: seq<string>, caseSensitive: bool, e: Entry)
    ensures var r := Classify(entries, Allowed(EndingsFromNames(names), caseSensitive), caseSensitive);
            var key := Fold(SplitExtBase(e.name), caseSensitive);
            && (e in r.0 <==> e in entries && e.kind == File && MatchesSomeName(names, key, caseSensitive))
            && (e in r.1 <==> e in entries && e.kind == File && !MatchesSomeName(names, key, caseSensitive))
  {
    var key := Fold(SplitExtBase(e.name), caseSensitive);
    KeptIffBaseIsAnEnding(entries, EndingsFromNames(names), caseSensitive, e);
    EndingMatchIffNameMatch(names, key, caseSensitive);
  }

  /** Matching some derived ending is matching the ending of some name. */
  lemma EndingMatchIffNameMatch(names: seq<string>, key: string, caseSensitive: bool)
    ensures (exists en :: en in EndingsFromNames(names) && Fold(en, caseSensitive) == key)
            <==> MatchesSomeName(names, key, caseSensitive)
  {
    if exists en :: en in EndingsFromNames(names) && Fold(en, caseSensitive) == key {
      var en :| en in EndingsFromNames(names) && Fold(en, caseSensitive) == key;
      EndingIsAnEndingOfSomeName(names, en);
    }
    if MatchesSomeName(names, key, caseSensitive) {
      var i :| 0 <= i < |names| && Fold(AfterLastDot(names[i]), caseSensitive) == key;
      EndingOfANameIsDerived(names, i);
    }
  }

  lemma EndingIsAnEndingOfSomeName(names: seq<string>, en: string)
    ensures en in EndingsFromNames(names) ==> exists i :: 0 <= i < |names| && AfterLastDot(names[i]) == en
  {
    if en in EndingsFromNames(names) {
      assert en in Endings(names);
      var i :| 0 <= i < |names| && Endings(names)[i] == en;
    }
  }

  lemma EndingOfANameIsDerived(names: seq<string>, i: nat)
    requires i < |names|
    ensures AfterLastDot(names[i]) in EndingsFromNames(names)
  {
    assert Endings(names)[i] in Endings(names);
  }

  /** End to end: a finished run keeps exactly the regular files whose folded base is
      the folded ending of some manifest name, and removes the other regular files. */
  lemma FinishedRunKeepsMatchingFiles(manifest: ManifestFile, jsonKey: Option<string>, pyStr: JsonValue -> string,
                                      inputDir: InputDir, deleteNonMatching: bool, caseSensitive: bool,
                                      deletes: Entry -> bool, e: Entry)
    ensures var run := RunFilter(manifest, jsonKey, pyStr, inputDir, deleteNonMatching, caseSensitive, deletes);
            run.Finished? ==>
              var names := CollectNames(manifest.value, jsonKey, pyStr);
              var key := Fold(SplitExtBase(e.name), caseSensitive);
              && (e in run.kept <==> e in inputDir.entries && e.kind == File && MatchesSomeName(names, key, caseSensitive))
              && (e in run.removed <==> e in inputDir.entries && e.kind == File && !MatchesSomeName(names, key, caseSensitive))
  {
    var run := RunFilter(manifest, jsonKey, pyStr, inputDir, deleteNonMatching, caseSensitive, deletes);
    if run.Finished? {
      var names := CollectNames(manifest.value, jsonKey, pyStr);
      var r := Classify(inputDir.entries, Allowed(EndingsFromNames(names), caseSensitive), caseSensitive);
      assert run.kept == r.0 && run.removed == r.1;
      KeptIffBaseMatchesName(inputDir.entries, names, caseSensitive, e);
    }
  }

  /** Dry-run never deletes; with `--delete-non-matching` exactly the removed files
      are attempted, each once, and the kept files never are. */
  lemma DeletesOnlyRemovedFiles(manifest: ManifestFile, jsonKey: Option<string>, pyStr: JsonValue -> string,
                                inputDir: InputDir, deleteNonMatching: bool, caseSensitive: bool, deletes: Entry -> bool)
    ensures var run := RunFilter(manifest, jsonKey, pyStr, inputDir, deleteNonMatching, caseSensitive, deletes);
            run.Finished? ==>
              && (run.deletions != [] ==> deleteNonMatching)
              && forall a :: a in run.deletions ==> a.entry in run.removed && a.entry !in run.kept
  {
    var run := RunFilter(manifest, jsonKey, pyStr, inputDir, deleteNonMatching, caseSensitive, deletes);
    if run.Finished? {
      forall a | a in run.deletions
        ensures a.entry in run.removed && a.entry !in run.kept
      {
        var i :| 0 <= i < |run.deletions| && run.deletions[i] == a;
        assert a.entry == run.removed[i];
      }
    }
  }

  /** A list holding one stripped identifier yields that identifier and its ending. */
  lemma SingleIdentifierNames(id: string, pyStr: JsonValue -> string)
    requires id != [] && Stripped(id)
    ensures CollectNames(JArray([JString(id)]), None, pyStr) == [id]
    ensures EndingsFromNames([id]) == [AfterLastDot(id)]
  {
    ListNamesOfOne(id, pyStr);
    assert ArrayNames([JString(id)], None, pyStr) == [id] by {
      DedupOfDistinct([id]);
    }
    EndingsOfOne(id);
  }

  lemma ListNamesOfOne(id: string, pyStr: JsonValue -> string)
    requires id != [] && Stripped(id)
    ensures ListNames([JString(id)], None, pyStr) == [id]
  {
    assert ItemName(JString(id), None, pyStr) == Some(id) by {
      StripOfStripped(id);
    }
    FilterMapOfOne(JString(id), ItemNameOf(None, pyStr));
  }

  lemma EndingsOfOne(id: string)
    ensures EndingsFromNames([id]) == [AfterLastDot(id)]
  {
    assert Endings([id]) == [AfterLastDot(id)];
    DedupOfDistinct([AfterLastDot(id)]);
  }

  /** A manifest holding one identifier: the files kept are exactly those whose
      `splitext` base, folded, equals the identifier's ending, folded; a dry run
      deletes nothing. */
  lemma SingleIdentifierRun(id: string, entries: seq<Entry>, caseSensitive: bool,
                            pyStr: JsonValue -> string, deletes: Entry -> bool)
    requires id != [] && Stripped(id)
    ensures var allowed := {Fold(AfterLastDot(id), caseSensitive)};
            RunFilter(Decoded(JArray([JString(id)])), None, pyStr, Listing(entries), false, caseSensitive, deletes)
              == Finished(Select(entries, KeepTest(allowed, caseSensitive)), Select(entries, RemoveTest(allowed, caseSensitive)), [])
  {
    var v := JArray([JString(id)]);
    SingleIdentifierNames(id, pyStr);
    AllowedOfOne(AfterLastDot(id), caseSensitive);
    DryRunOnListing(v, None, pyStr, entries, caseSensitive, deletes);
  }

  /** A dry run on a manifest with names and a listable directory finishes with the
      classification against the names' endings and deletes nothing. */
  lemma DryRunOnListing(v: JsonValue, jsonKey: Option<string>, pyStr: JsonValue -> string,
                        entries: seq<Entry>, caseSensitive: bool, deletes: Entry -> bool)
    ensures var names := CollectNames(v, jsonKey, pyStr);
            var r := Classify(entries, Allowed(EndingsFromNames(names), caseSensitive), caseSensitive);
            names != [] ==> RunFilter(Decoded(v), jsonKey, pyStr, Listing(entries), false, caseSensitive, deletes) == Finished(r.0, r.1, [])
  {
  }

  lemma CveEndingAndBases()
    ensures AfterLastDot("pkg.x86.CVE-2024-1234") == "CVE-2024-1234"
    ensures SplitExtBase("cve-2024-1234.json") == "cve-2024-1234"
    ensures SplitExtBase("other.txt") == "other"
  {
    AfterLastDotUnique("pkg.x86.CVE-2024-1234", "CVE-2024-1234");
    BaseDropsLastExtension("cve-2024-1234.json", "json");
    BaseDropsLastExtension("other.txt", "txt");
  }

  lemma BaseDropsLastExtension(name: string, ext: string)
    requires |ext| < |name| - 1 && ext == name[|name| - |ext|..] && '.' !in ext
    requires ext != [] && name[|name| - |ext| - 1] == '.' && name[0] != '.'
    ensures SplitExtBase(name) == name[..|name| - |ext| - 1]
  {
    assert name[|name| - 1] == ext[|ext| - 1];
    AfterLastDotUnique(name, ext);
    StemMatchesSplitExt(name);
    StemSplitsPlainName(name);
  }

  lemma CveFolds()
    ensures Fold("CVE-2024-1234", false) == "cve-2024-1234"
    ensures Fold("cve-2024-1234", false) == "cve-2024-1234"
    ensures Fold("other", false) == "other"
  {
  }

  lemma CveFileSelected()
    ensures var keep := Entry("cve-2024-1234.json", File);
            var other := Entry("other.txt", File);
            var allowed := {Fold("CVE-2024-1234", false)};
            && Select([keep, other], KeepTest(allowed, false)) == [keep]
            && Select([keep, other], RemoveTest(allowed, false)) == [other]
  {
    var keep := Entry("cve-2024-1234.json", File);
    var other := Entry("other.txt", File);
    var allowed := {Fold("CVE-2024-1234", false)};
    assert EntryKey(keep, false) == "cve-2024-1234" && EntryKey(other, false) == "other" by {
      CveEndingAndBases();
      CveFolds();
    }
    assert allowed == {"cve-2024-1234"} by {
      CveFolds();
    }
    SelectLast([keep, other], KeepTest(allowed, false));
    SelectLast([keep, other], RemoveTest(allowed, false));
    assert [keep, other][..1] == [keep];
    SelectLast([keep], KeepTest(allowed, false));
    SelectLast([keep], RemoveTest(allowed, false));
    assert [keep][..0] == [];
  }

  /** With the identifier `pkg.x86.CVE-2024-1234`, the file `cve-2024-1234.json` is
      kept in the default case-insensitive mode and `other.txt` is not. */
  lemma CveFileKeptCaseInsensitively(pyStr: JsonValue -> string, deletes: Entry -> bool)
    ensures var keep := Entry("cve-2024-1234.json", File);
            var other := Entry("other.txt", File);
            RunFilter(Decoded(JArray([JString("pkg.x86.CVE-2024-1234")])), None, pyStr, Listing([keep, other]), false, false, deletes)
              == Finished([keep], [other], [])
  {
    var keep := Entry("cve-2024-1234.json", File);
    var other := Entry("other.txt", File);
    CveEndingAndBases();
    CveFileSelected();
    SingleIdentifierRun("pkg.x86.CVE-2024-1234", [keep, other], false, pyStr, deletes);
  }
}
