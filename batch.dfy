/**
 * `process_batch_images`: run the background remover on every image entry of a directory
 * listing, in listing order, isolating per-file failures, and count the calls that returned.
 * The listing is given as a sequence of names, and the outcome of each call as a function of
 * the paths it is called with (the remover's result, or any `Exception` raised inside it).
 */
module Batch {
  import opened Paths
  import opened Remover

  /** The allow-list of raster extensions, compared against the lower-cased name. */
  const ImageExtensions: seq<string> := [".jpg", ".jpeg", ".png", ".webp"]

  /** `str.lower` restricted to ASCII letters. */
  function LowerChar(c: char): char {
    if 'A' <= c <= 'Z' then (c as int + 32) as char else c
  }

  function LowerAscii(s: string): string {
    seq(|s|, i requires 0 <= i < |s| => LowerChar(s[i]))
  }

  /** `str.endswith`. */
  predicate EndsWith(s: string, suffix: string) {
    |suffix| <= |s| && s[|s| - |suffix|..] == suffix
  }

  /** `any(s.endswith(ext) for ext in exts)`, tried in list order. */
  predicate EndsWithAny(s: string, exts: seq<string>) {
    exts != [] && (EndsWith(s, exts[0]) || EndsWithAny(s, exts[1..]))
  }

  /** `any(filename.lower().endswith(ext) for ext in image_extensions)`. */
  predicate IsImageName(name: string) {
    EndsWithAny(LowerAscii(name), ImageExtensions)
  }

  lemma {:induction false} EndsWithAnyIsSome(s: string, exts: seq<string>)
    ensures EndsWithAny(s, exts) <==> exists ext :: ext in exts && EndsWith(s, ext)
  {
    if exts != [] {
      EndsWithAnyIsSome(s, exts[1..]);
      assert forall ext :: ext in exts <==> ext == exts[0] || ext in exts[1..] by {
        assert exts == [exts[0]] + exts[1..];
      }
    }
  }

  /** The two paths one call of the remover receives. */
  datatype Call = Call(input: string, output: string)

  /** The input path and output path the driver derives for a directory entry. */
  function CallFor(inputDir: string, outputDir: string, name: string): Call {
    Call(Join(inputDir, name), Join(outputDir, OutputName(name)))
  }

  /** The entries the filter lets through, in listing order. */
  function Selected(entries: seq<string>): seq<string> {
    if entries == [] then []
    else
      var init, last := entries[..|entries| - 1], entries[|entries| - 1];
      Selected(init) + (if IsImageName(last) then [last] else [])
  }

  /** The calls the driver makes for the given selected names, one each, in order. */
  function Plan(inputDir: string, outputDir: string, names: seq<string>): seq<Call> {
    seq(|names|, k requires 0 <= k < |names| => CallFor(inputDir, outputDir, names[k]))
  }

  /** A call counts as processed when it returned, whether with an image or with None. */
  predicate Returned(outcome: Removal) {
    !outcome.Raised?
  }

  /** The number of calls in `calls` that returned under `process`. */
  function CountReturned(process: Call -> Removal, calls: seq<Call>): nat {
    if calls == [] then 0
    else CountReturned(process, calls[..|calls| - 1]) + (if Returned(process(calls[|calls| - 1])) then 1 else 0)
  }

  method ProcessBatch(inputDir: string, outputDir: string, entries: seq<string>, process: Call -> Removal)
    returns (calls: seq<Call>, processedCount: nat)
    ensures calls == Plan(inputDir, outputDir, Selected(entries))
    ensures processedCount == CountReturned(process, calls)
    ensures processedCount <= |calls| <= |entries|
  {
    calls := [];
    processedCount := 0;
    for i := 0 to |entries|
      invariant calls == Plan(inputDir, outputDir, Selected(entries[..i]))
      invariant processedCount == CountReturned(process, calls)
    {
      var filename := entries[i];
      SelectedStep(entries, i);
      if IsImageName(filename) {
        var call := CallFor(inputDir, outputDir, filename);
        // try: remove_background(...); processed_count += 1  except Exception: log and go on
        var outcome := process(call);
        ghost var before := calls;
        calls := calls + [call];
        assert calls[..|calls| - 1] == before;
        if Returned(outcome) {
          processedCount := processedCount + 1;
        }
      }
      assert calls == Plan(inputDir, outputDir, Selected(entries[..i + 1]));
    }
    assert entries[..|entries|] == entries;
    CountReturnedBounds(process, calls);
    SelectedLength(entries);
  }

  lemma SelectedStep(entries: seq<string>, i: nat)
    requires i < |entries|
    ensures Selected(entries[..i + 1]) == Selected(entries[..i]) + if IsImageName(entries[i]) then [entries[i]] else []
  {
    assert entries[..i + 1][..i] == entries[..i];
  }

  /** An entry is selected exactly when it is listed and its name passes the filter. */
  lemma {:induction false} SelectedMembership(entries: seq<string>, name: string)
    ensures name in Selected(entries) <==> name in entries && IsImageName(name)
  {
    if entries != [] {
      var init, last := entries[..|entries| - 1], entries[|entries| - 1];
      assert entries == init + [last];
      SelectedMembership(init, name);
    }
  }

  /** Filtering keeps listing order: the selection of a concatenation is the concatenation of the selections. */
  lemma {:induction false} SelectedAppend(a: seq<string>, b: seq<string>)
    ensures Selected(a + b) == Selected(a) + Selected(b)
  {
    if b == [] {
      assert a + b == a;
    } else {
      var init, last := b[..|b| - 1], b[|b| - 1];
      assert (a + b)[..|a + b| - 1] == a + init;
      SelectedAppend(a, init);
    }
  }

  /** No more entries are selected than are listed. */
  lemma {:induction false} SelectedLength(entries: seq<string>)
    ensures |Selected(entries)| <= |entries|
  {
    if entries != [] {
      SelectedLength(entries[..|entries| - 1]);
    }
  }

  /**
   * At most every call is counted, and every call is counted exactly when none raised;
   * a call that returned None (no mask found) counts like one that saved an image.
   */
  lemma {:induction false} CountReturnedBounds(process: Call -> Removal, calls: seq<Call>)
    ensures CountReturned(process, calls) <= |calls|
    ensures CountReturned(process, calls) == |calls| <==> forall c :: c in calls ==> Returned(process(c))
  {
    if calls != [] {
      var init, last := calls[..|calls| - 1], calls[|calls| - 1];
      assert calls == init + [last];
      CountReturnedBounds(process, init);
    }
  }

  /** Each planned call reads the entry from the input directory and writes `<stem>_nobg.png` into the output directory. */
  lemma PlannedPaths(inputDir: string, outputDir: string, names: seq<string>, k: nat)
    requires k < |names| && '/' !in names[k]
    ensures |Plan(inputDir, outputDir, names)| == |names|
    ensures Plan(inputDir, outputDir, names)[k] == Call(Join(inputDir, names[k]), Join(outputDir, OutputName(names[k])))
    ensures Basename(Plan(inputDir, outputDir, names)[k].input) == names[k]
    ensures Basename(Plan(inputDir, outputDir, names)[k].output) == OutputName(names[k])
  {
    JoinBasename(inputDir, names[k]);
    JoinBasename(outputDir, OutputName(names[k]));
  }

  /**
   * Lower-casing keeps the length, leaves no upper-case ASCII letter, changes exactly the
   * upper-case letters, and is idempotent.
   */
  lemma LowerAsciiFolds(s: string)
    ensures |LowerAscii(s)| == |s|
    ensures forall i :: 0 <= i < |s| ==> !('A' <= LowerAscii(s)[i] <= 'Z')
    ensures forall i :: 0 <= i < |s| ==> (LowerAscii(s)[i] == s[i] <==> !('A' <= s[i] <= 'Z'))
    ensures LowerAscii(LowerAscii(s)) == LowerAscii(s)
  {
  }

  /** Lower-casing commutes with taking a suffix. */
  lemma LowerAsciiSuffix(name: string, k: nat)
    requires k <= |name|
    ensures LowerAscii(name[k..]) == LowerAscii(name)[k..]
  {
  }

  /** A name is selected exactly when it ends, in any letter case, with an allowed extension. */
  lemma ImageNameBySuffix(name: string)
    ensures IsImageName(name) <==> exists k :: 0 <= k <= |name| && LowerAscii(name[k..]) in ImageExtensions
  {
    var lower := LowerAscii(name);
    EndsWithAnyIsSome(lower, ImageExtensions);
    if IsImageName(name) {
      var ext :| ext in ImageExtensions && EndsWith(lower, ext);
      var k := |name| - |ext|;
      LowerAsciiSuffix(name, k);
      assert LowerAscii(name[k..]) == ext;
    }
    if exists k :: 0 <= k <= |name| && LowerAscii(name[k..]) in ImageExtensions {
      var k :| 0 <= k <= |name| && LowerAscii(name[k..]) in ImageExtensions;
      LowerAsciiSuffix(name, k);
      assert EndsWith(lower, LowerAscii(name[k..]));
    }
  }

  /** An upper-case extension is selected, a text file is not. */
  lemma ImageNameExamples()
    ensures IsImageName("A.JPG")
    ensures IsImageName("photo.jpeg")
    ensures !IsImageName("notes.txt")
  {
    assert LowerAscii("A.JPG") == "a.jpg";
    assert EndsWith(LowerAscii("A.JPG"), ".jpg");
    assert LowerAscii("photo.jpeg") == "photo.jpeg";
    assert EndsWith("photo.jpeg", ".jpeg");
    assert LowerAscii("notes.txt") == "notes.txt";
  }

  lemma ScenarioImagesSelected()
    ensures IsImageName("a.jpg") && IsImageName("b.png")
  {
    assert LowerAscii("a.jpg") == "a.jpg" && EndsWith("a.jpg", ".jpg");
    assert LowerAscii("b.png") == "b.png" && EndsWith("b.png", ".png");
  }

  /** From a listing of two images and a text file, the filter keeps the two images in order. */
  lemma ScenarioSelection()
    ensures Selected(["a.jpg", "b.png", "notes.txt"]) == ["a.jpg", "b.png"]
  {
    ScenarioImagesSelected();
    ImageNameExamples();
    var es := ["a.jpg", "b.png", "notes.txt"];
    var two, one := ["a.jpg", "b.png"], ["a.jpg"];
    assert es[..2] == two && two[..1] == one && one[..0] == [];
    assert es[2] == "notes.txt" && two[1] == "b.png" && one[0] == "a.jpg";
  }

  /**
   * In that listing, when the first image yields a mask and the second none, both calls
   * return and both are counted.
   */
  lemma ScenarioCountsNoMaskFile(inputDir: string, outputDir: string, process: Call -> Removal)
    requires process(CallFor(inputDir, outputDir, "a.jpg")).Saved?
    requires process(CallFor(inputDir, outputDir, "b.png")) == NoMask
    ensures CountReturned(process, Plan(inputDir, outputDir, Selected(["a.jpg", "b.png", "notes.txt"]))) == 2
  {
    ScenarioSelection();
    var plan := Plan(inputDir, outputDir, ["a.jpg", "b.png"]);
    assert plan == [CallFor(inputDir, outputDir, "a.jpg"), CallFor(inputDir, outputDir, "b.png")];
    assert plan[..1][..0] == [];
    assert CountReturned(process, plan[..1]) == 1;
    assert CountReturned(process, plan) == 2;
  }
}
