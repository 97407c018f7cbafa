/** cleanup_input.py: upper-case the text after the last '.' of every manifest entry,
    schedule for removal every entry of the input directory whose name without
    extension is not one of those segments, and, once the user confirms, delete the
    scheduled entries one by one, counting successes and failures.
 */
module Cleanup {
  import opened Text
  import opened Seqs
  import opened Json
  import opened Paths
  import opened Workspace

  /** The macOS metadata file, never a candidate for removal. */
  const MacMetadata: string := ".DS_Store"

  /** `extract_last_segment`: the last characters of `item` after its final '.',
      upper-cased; the whole item upper-cased when it holds no '.'. */
  function ExtractLastSegment(item: string): (seg: string)
    ensures '.' !in seg
    ensures |seg| <= |item|
    ensures |seg| < |item| ==> item[|item| - |seg| - 1] == '.'
    ensures forall k :: 0 <= k < |seg| ==> seg[k] == UpperChar(item[|item| - |seg| + k])
    ensures forall k :: 0 <= k < |seg| ==> !IsLowerAscii(seg[k])
  {
    var tail := AfterLastDot(item);
    UpperFacts(tail);
    Upper(tail)
  }

  /** A segment is its own segment: it holds no '.' and no lower-case letter. */
  lemma ExtractLastSegmentIsIdempotent(item: string)
    ensures ExtractLastSegment(ExtractLastSegment(item)) == ExtractLastSegment(item)
  {
    var seg := ExtractLastSegment(item);
    AfterLastDotUnique(seg, seg);
    assert Upper(seg) == seg;
  }

  /** `get_name_without_extension`: a regular file loses its extension (its
      `Path.stem`); a directory or anything else keeps its full name. */
  function NameWithoutExtension(e: Entry): (n: string)
    ensures e.kind != File ==> n == e.name
    ensures |n| <= |e.name| && n == e.name[..|n|]
    ensures e.kind == File && PlainName(e.name) && '.' in e.name ==> n != [] && e.name == n + "." + AfterLastDot(e.name)
    ensures e.kind == File && '.' !in e.name ==> n == e.name
  {
    if e.kind == File then
      var n := Stem(e.name);
      assert PlainName(e.name) ==> ('.' !in e.name ==> n == e.name) && ('.' in e.name ==> n != [] && e.name == n + "." + AfterLastDot(e.name)) by {
        if PlainName(e.name) {
          StemSplitsPlainName(e.name);
        }
      }
      n
    else
      e.name
  }

  /** The example pair of the docstrings: the file `cve-2024-56827.json` is compared
      as `cve-2024-56827`. */
  lemma NameWithoutExtensionExample()
    ensures NameWithoutExtension(Entry("cve-2024-56827.json", File)) == "cve-2024-56827"
    ensures NameWithoutExtension(Entry("cve-2024-56827.json", Directory)) == "cve-2024-56827.json"
  {
    StemExample();
  }

  /** The set `valid_names` built by iterating over the decoded manifest, or None
      when that iteration raises: a list must hold only strings (`split` is called on
      each item), an object is iterated over its keys, a string over its characters,
      and any other value cannot be iterated. */
  function ValidNames(v: JsonValue): (r: Option<set<string>>)
    ensures r.Some? ==> forall n :: n in r.value ==> '.' !in n
    ensures v.JArray? ==> (r.Some? <==> forall i :: 0 <= i < |v.items| ==> v.items[i].JString?)
    ensures v.JArray? && r.Some? ==> forall i :: 0 <= i < |v.items| ==> ExtractLastSegment(v.items[i].s) in r.value
    ensures v.JArray? && r.Some? ==> forall n :: n in r.value ==> exists i :: 0 <= i < |v.items| && ExtractLastSegment(v.items[i].s) == n
    ensures v.JObject? ==> r.Some? && forall k :: k in v.fields ==> ExtractLastSegment(k) in r.value
    ensures v.JObject? ==> r.Some? && forall n :: n in r.value ==> exists k :: k in v.fields && ExtractLastSegment(k) == n
    ensures v.JString? ==> r.Some? && forall i :: 0 <= i < |v.s| ==> ExtractLastSegment([v.s[i]]) in r.value
    ensures v.JString? ==> r.Some? && forall n :: n in r.value ==> exists i :: 0 <= i < |v.s| && ExtractLastSegment([v.s[i]]) == n
    ensures v.JNull? || v.JBool? || v.JNumber? ==> r.None?
  {
    match v
    case JArray(items) => ListSegments(items)
    case JObject(fields) => Some(KeySegments(fields))
    case JString(s) => Some(CharSegments(s))
    case _ => None
  }

  /** Iterating over a list visits its items; `split` fails on an item that is not a string. */
  function ListSegments(items: seq<JsonValue>): (r: Option<set<string>>)
    ensures r.Some? ==> forall n :: n in r.value ==> '.' !in n
    ensures r.Some? <==> forall i :: 0 <= i < |items| ==> items[i].JString?
    ensures r.Some? ==> forall i :: 0 <= i < |items| ==> ExtractLastSegment(items[i].s) in r.value
    ensures r.Some? ==> forall n :: n in r.value ==> exists i :: 0 <= i < |items| && ExtractLastSegment(items[i].s) == n
  {
    if forall i :: 0 <= i < |items| ==> items[i].JString? then Some(Segments(Strings(items))) else None
  }

  /** Iterating over an object visits its keys. */
  function KeySegments(fields: map<string, JsonValue>): (valid: set<string>)
    ensures forall n :: n in valid ==> '.' !in n
    ensures forall k :: k in fields ==> ExtractLastSegment(k) in valid
    ensures forall n :: n in valid ==> exists k :: k in fields && ExtractLastSegment(k) == n
  {
    set k | k in fields :: ExtractLastSegment(k)
  }

  /** Iterating over a string visits its characters, each a one-character string. */
  function CharSegments(s: string): (valid: set<string>)
    ensures forall n :: n in valid ==> '.' !in n
    ensures forall i :: 0 <= i < |s| ==> ExtractLastSegment([s[i]]) in valid
    ensures forall n :: n in valid ==> exists i :: 0 <= i < |s| && ExtractLastSegment([s[i]]) == n
  {
    set i | 0 <= i < |s| :: ExtractLastSegment([s[i]])
  }

  /** `ExtractLastSegment` as one closure value: every mention of it is the same
      term, so the generic facts about `SetOf` apply to `Segments` without re-proof. */
  function SegmentOf(): string -> string {
    (item: string) => ExtractLastSegment(item)
  }

  /** The loop adding the segment of each string of a list to `valid_names`. */
  function Segments(strs: seq<string>): (valid: set<string>)
    ensures forall n :: n in valid ==> '.' !in n
    ensures forall i :: 0 <= i < |strs| ==> ExtractLastSegment(strs[i]) in valid
    ensures forall n :: n in valid ==> exists i :: 0 <= i < |strs| && ExtractLastSegment(strs[i]) == n
  {
    var valid := SetOf(strs, SegmentOf());
    assert forall n :: n in valid <==> exists i :: 0 <= i < |strs| && SegmentOf()(strs[i]) == n by {
      forall n {
        SetOfMembers(strs, SegmentOf(), n);
      }
    }
    valid
  }

  /** The strings of a list that holds nothing else. */
  function Strings(items: seq<JsonValue>): (strs: seq<string>)
    requires forall i :: 0 <= i < |items| ==> items[i].JString?
    ensures |strs| == |items|
    ensures forall i :: 0 <= i < |items| ==> strs[i] == items[i].s
  {
    seq(|items|, i requires 0 <= i < |items| => items[i].s)
  }

  predicate Listed(e: Entry) {
    e.name != MacMetadata
  }

  function NotValid(valid: set<string>): Entry -> bool {
    (e: Entry) => NameWithoutExtension(e) !in valid
  }

  function RemovalTest(valid: set<string>): Entry -> bool {
    (e: Entry) => e.name != MacMetadata && NameWithoutExtension(e) !in valid
  }

  /** `to_remove`: the listed entries (everything but `.DS_Store`) whose name without
      extension is not, exactly and case-sensitively, one of the valid names, in
      listing order. */
  function ToRemove(entries: seq<Entry>, valid: set<string>): (toRemove: seq<Entry>)
    ensures toRemove == Select(entries, RemovalTest(valid))
    ensures forall e :: e in toRemove <==> e in entries && e.name != MacMetadata && NameWithoutExtension(e) !in valid
  {
    var listed := Select(entries, Listed);
    SelectSelect(entries, Listed, NotValid(valid), RemovalTest(valid));
    Select(listed, NotValid(valid))
  }

  /** The prompt's answer counts as consent when, lower-cased, it is exactly `y`. */
  predicate Confirmed(reply: string) {
    Lower(reply) == "y"
  }

  /** Only `y` and `Y` confirm: no surrounding space, no `yes`. */
  lemma ConfirmedIff(reply: string)
    ensures Confirmed(reply) <==> reply == "y" || reply == "Y"
  {
    if |reply| == 1 {
      assert reply == [reply[0]];
    }
  }

  /** How a run of `main` ends. */
  datatype CleanupRun =
    | ManifestNotFound
    | InputNotFound
    | Crashed
    | NothingToRemove
    | Cancelled(toRemove: seq<Entry>)
    | Done(toRemove: seq<Entry>, attempts: seq<Attempt>, removedCount: nat, failedCount: nat)

  /** The prompt was shown and answered. */
  predicate Answered(run: CleanupRun) {
    run.Cancelled? || run.Done?
  }

  /** The body of `main`, with the manifest, the directory listing, the reply to the
      prompt (`None` when standard input is at end of file, so `input()` raises) and
      the outcome of each deletion given as inputs. */
  function RunCleanup(manifest: ManifestFile, inputDir: InputDir, reply: Option<string>, deletes: Entry -> bool): (run: CleanupRun)
    ensures manifest.Absent? ==> run == ManifestNotFound
    ensures !manifest.Absent? && inputDir.Missing? ==> run == InputNotFound
    ensures run.Cancelled? ==> reply.Some? && !Confirmed(reply.value) && run.toRemove != []
    ensures run.Done? ==> reply.Some? && Confirmed(reply.value) && run.toRemove != []
    ensures run.Done? ==> |run.attempts| == |run.toRemove| && run.removedCount + run.failedCount == |run.toRemove|
    ensures run.Done? ==> forall i :: 0 <= i < |run.toRemove| ==> run.attempts[i].entry == run.toRemove[i]
  {
    if manifest.Absent? then ManifestNotFound
    else if inputDir.Missing? then InputNotFound
    else if !manifest.Decoded? then Crashed
    else
      match ValidNames(manifest.value)
      case None => Crashed
      case Some(valid) =>
        if !inputDir.Listing? then Crashed
        else
          var toRemove := ToRemove(inputDir.entries, valid);
          if toRemove == [] then NothingToRemove
          else if reply.None? then Crashed
          else if !Confirmed(reply.value) then Cancelled(toRemove)
          else
            var log := DeleteEach(toRemove, deletes);
            var counts := Tally(log);
            Done(toRemove, log, counts.0, counts.1)
  }

  /** The removal list a run computes, when it gets that far. */
  function Scheduled(manifest: ManifestFile, inputDir: InputDir): Option<seq<Entry>> {
    if manifest.Decoded? && inputDir.Listing? then
      match ValidNames(manifest.value)
      case Some(valid) => Some(ToRemove(inputDir.entries, valid))
      case None => None
    else None
  }

  /** The user is asked only when both paths exist, the manifest can be iterated, the
      directory can be listed and something is scheduled for removal; deletion happens
      only after a `y` or `Y`. */
  lemma PromptAndDeletionGuards(manifest: ManifestFile, inputDir: InputDir, reply: Option<string>, deletes: Entry -> bool)
    ensures var run := RunCleanup(manifest, inputDir, reply, deletes);
            var prompts := Scheduled(manifest, inputDir).Some? && Scheduled(manifest, inputDir).value != [];
            && (Answered(run) <==> prompts && reply.Some?)
            && (run.Done? <==> prompts && (reply == Some("y") || reply == Some("Y")))
            && (Answered(run) ==> run.toRemove == Scheduled(manifest, inputDir).value)
            && (run == NothingToRemove <==> Scheduled(manifest, inputDir) == Some([]))
            && (run == Crashed <==>
                  !manifest.Absent? && !inputDir.Missing? && (Scheduled(manifest, inputDir).None? || (prompts && reply.None?)))
  {
    if reply.Some? {
      ConfirmedIff(reply.value);
    }
  }

  /** Once the manifest exists, a directory that cannot be listed crashes the run
      whatever the manifest holds, and so does end of file at the prompt once
      something is scheduled. */
  lemma UnlistableOrClosedInputCrashes(manifest: ManifestFile, inputDir: InputDir, reply: Option<string>, deletes: Entry -> bool)
    ensures !manifest.Absent? ==> RunCleanup(manifest, Unlistable, reply, deletes) == Crashed
    ensures var s := Scheduled(manifest, inputDir);
            s.Some? && s.value != [] ==> RunCleanup(manifest, inputDir, None, deletes) == Crashed
  {
  }

  /** After a confirmed run every scheduled entry has been attempted once, in order;
      the removed count is the number the filesystem let go and the failed count the
      rest. */
  lemma DeletionCounts(manifest: ManifestFile, inputDir: InputDir, reply: Option<string>, deletes: Entry -> bool)
    ensures var run := RunCleanup(manifest, inputDir, reply, deletes);
            run.Done? ==>
              && run.attempts == DeleteEach(run.toRemove, deletes)
              && run.removedCount == |Select(run.attempts, Succeeded)|
              && run.failedCount == |Select(run.attempts, Failed)|
  {
    var run := RunCleanup(manifest, inputDir, reply, deletes);
    if run.Done? {
      var valid := ValidNames(manifest.value).value;
      var toRemove := ToRemove(inputDir.entries, valid);
      var log := DeleteEach(toRemove, deletes);
      assert run == Done(toRemove, log, Tally(log).0, Tally(log).1);
    }
  }

  /** The example of the docstring of `extract_last_segment`. */
  lemma SegmentExample()
    ensures ExtractLastSegment("secb.x86_64.openjpeg.cve-2024-56827") == "CVE-2024-56827"
  {
    assert AfterLastDot("secb.x86_64.openjpeg.cve-2024-56827") == "cve-2024-56827" by {
      AfterLastDotUnique("secb.x86_64.openjpeg.cve-2024-56827", "cve-2024-56827");
    }
    UpperExample();
  }

  lemma UpperExample()
    ensures Upper("cve-2024-56827") == "CVE-2024-56827"
    ensures Upper("cve-1") == "CVE-1"
  {
  }

  lemma ShortSegmentExample()
    ensures ExtractLastSegment("o.cve-1") == "CVE-1"
  {
    assert AfterLastDot("o.cve-1") == "cve-1" by {
      AfterLastDotUnique("o.cve-1", "cve-1");
    }
    UpperExample();
  }

  lemma ValidNamesOfOne(id: string)
    ensures ValidNames(JArray([JString(id)])) == Some({ExtractLastSegment(id)})
  {
    ListSegmentsOfOne(id);
  }

  lemma ListSegmentsOfOne(id: string)
    ensures ListSegments([JString(id)]) == Some({ExtractLastSegment(id)})
  {
    assert Strings([JString(id)]) == [id];
    SegmentsOfOne(id);
  }

  lemma SegmentsOfOne(id: string)
    ensures Segments([id]) == {ExtractLastSegment(id)}
  {
    assert [id][..0] == [];
    assert SetOf([id], SegmentOf()) == {SegmentOf()(id)};
  }

  lemma ValidNamesExample()
    ensures ValidNames(JArray([JString("o.cve-1")])) == Some({"CVE-1"})
  {
    ValidNamesOfOne("o.cve-1");
    ShortSegmentExample();
  }

  lemma StemsExample()
    ensures NameWithoutExtension(Entry("cve-1.json", File)) == "cve-1"
    ensures NameWithoutExtension(Entry("CVE-1.json", File)) == "CVE-1"
  {
    AfterLastDotUnique("cve-1.json", "json");
    AfterLastDotUnique("CVE-1.json", "json");
    StemSplitsPlainName("cve-1.json");
    StemSplitsPlainName("CVE-1.json");
  }

  /** The removal test on the three example entries: only the lower-case file fails
      to match the upper-cased segment; `.DS_Store` is exempt. */
  lemma RemovalTestExample()
    ensures var test := RemovalTest({"CVE-1"});
            && test(Entry("cve-1.json", File))
            && !test(Entry("CVE-1.json", File))
            && !test(Entry(".DS_Store", File))
  {
    StemsExample();
  }

  lemma RemovalExample()
    ensures var lower := Entry("cve-1.json", File);
            var upper := Entry("CVE-1.json", File);
            var meta := Entry(".DS_Store", File);
            Select([lower, upper, meta], RemovalTest({"CVE-1"})) == [lower]
  {
    var lower := Entry("cve-1.json", File);
    var upper := Entry("CVE-1.json", File);
    var meta := Entry(".DS_Store", File);
    var test := RemovalTest({"CVE-1"});
    RemovalTestExample();
    SelectOfThree(lower, upper, meta, test);
  }

  /** Manifest segments are upper-cased but entry names are compared as they are:
      for the manifest entry `o.cve-1`, the file `CVE-1.json` stays, `cve-1.json` is
      scheduled for removal, and `.DS_Store` is never scheduled. */
  lemma EntryNamesAreNotCaseFolded()
    ensures var lower := Entry("cve-1.json", File);
            var upper := Entry("CVE-1.json", File);
            var meta := Entry(".DS_Store", File);
            Scheduled(Decoded(JArray([JString("o.cve-1")])), Listing([lower, upper, meta])) == Some([lower])
  {
    var lower := Entry("cve-1.json", File);
    var upper := Entry("CVE-1.json", File);
    var meta := Entry(".DS_Store", File);
    assert ValidNames(JArray([JString("o.cve-1")])) == Some({"CVE-1"}) by {
      ValidNamesExample();
    }
    assert ToRemove([lower, upper, meta], {"CVE-1"}) == [lower] by {
      RemovalExample();
    }
  }
}
