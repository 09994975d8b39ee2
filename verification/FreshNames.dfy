/** How the builder names a pipeline, ui/src/components/builder/pipeline-canvas.ts: the loops that look for a free
    name stop, and quickly. */
module FreshNames {
  import opened Counting
  import opened PipelineTypes

  function Digit(d: nat): char
    requires d < 10
  {
    "0123456789"[d]
  }

  predicate IsDigit(c: char) {
    '0' <= c <= '9'
  }

  /** Decimal rendering without leading zeros. */
  function Decimal(n: nat): (s: string)
    ensures |s| > 0 && forall i :: 0 <= i < |s| ==> IsDigit(s[i])
  {
    (if n < 10 then "" else Decimal(n / 10)) + [Digit(n % 10)]
  }

  function Value(s: string): nat
    requires forall i :: 0 <= i < |s| ==> IsDigit(s[i])
  {
    if s == "" then 0
    else
      assert IsDigit(s[|s| - 1]);
      10 * Value(s[..|s| - 1]) + (s[|s| - 1] as int - '0' as int)
  }

  lemma {:induction false} DecimalReadsBack(n: nat)
    ensures Value(Decimal(n)) == n
  {
    if n < 10 {
      assert Decimal(n)[..0] == "";
    } else {
      DecimalReadsBack(n / 10);
      assert Decimal(n)[..|Decimal(n)| - 1] == Decimal(n / 10);
    }
  }

  /** The rendering is the decimal one: the digits of the tens, and then the last digit. */
  lemma DecimalDigits(tens: nat, d: nat)
    requires d < 10
    ensures tens == 0 ==> Decimal(d) == ["0123456789"[d]]
    ensures tens > 0 ==> Decimal(10 * tens + d) == Decimal(tens) + ["0123456789"[d]]
  {
    assert (10 * tens + d) / 10 == tens && (10 * tens + d) % 10 == d;
  }

  /** Different counters give different names. */
  lemma NumberedNamesDiffer(prefix: string, a: nat, b: nat)
    ensures prefix + Decimal(a) == prefix + Decimal(b) <==> a == b
  {
    if prefix + Decimal(a) == prefix + Decimal(b) {
      assert (prefix + Decimal(a))[|prefix|..] == Decimal(a);
      assert (prefix + Decimal(b))[|prefix|..] == Decimal(b);
      DecimalReadsBack(a);
      DecimalReadsBack(b);
    }
  }

  /** The numbered names that were tried before `counter`. */
  function Tried(prefix: string, counter: nat): (names: seq<string>)
    requires counter >= 1
    ensures |names| == counter - 1
    ensures forall k :: 0 <= k < |names| ==> names[k] == prefix + Decimal(k + 2)
  {
    seq(counter - 1, k requires 0 <= k < counter - 1 => prefix + Decimal(k + 2))
  }

  lemma TriedDiffer(prefix: string, counter: nat)
    requires counter >= 1
    ensures Distinct(Tried(prefix, counter))
  {
    var names := Tried(prefix, counter);
    forall i, j | 0 <= i < j < |names|
      ensures names[i] != names[j]
    {
      NumberedNamesDiffer(prefix, i + 2, j + 2);
    }
  }

  /** Pigeonhole: only as many numbered names can be taken as there are taken names. */
  lemma TakenNamesBound(prefix: string, counter: nat, taken: set<string>)
    requires counter >= 1 && forall name :: name in Tried(prefix, counter) ==> name in taken
    ensures counter - 1 <= |taken|
  {
    TriedDiffer(prefix, counter);
    DistinctFits(Tried(prefix, counter), taken);
  }

  // ---- The copy suffix

  /** The whole of `s` matches -copy(-\d+)? */
  predicate IsCopySuffix(s: string) {
    s == "-copy" || (|s| > 6 && s[..6] == "-copy-" && forall i :: 6 <= i < |s| ==> IsDigit(s[i]))
  }

  /** Drops the leftmost match that extends to the end. */
  function StripFrom(name: string, k: nat): string
    requires k <= |name|
    decreases |name| - k
  {
    if k == |name| then name
    else if IsCopySuffix(name[k..]) then name[..k]
    else StripFrom(name, k + 1)
  }

  function StripCopy(name: string): string {
    StripFrom(name, 0)
  }

  function CopyName(stem: string, counter: nat): string {
    stem + "-copy-" + Decimal(counter)
  }

  lemma {:induction false} StripFindsSuffix(name: string, k: nat, stop: nat)
    requires k <= stop < |name| && IsCopySuffix(name[stop..])
    requires forall i :: k <= i < stop ==> !IsCopySuffix(name[i..])
    ensures StripFrom(name, k) == name[..stop]
    decreases stop - k
  {
    if k < stop {
      StripFindsSuffix(name, k + 1, stop);
    }
  }

  /** Copying a generated copy stays in the same family of names, whatever its stem. */
  lemma StripUndoesCopy(stem: string, counter: nat)
    ensures StripCopy(CopyName(stem, counter)) == stem
  {
    var name, n := CopyName(stem, counter), |stem|;
    assert name[n..] == "-copy-" + Decimal(counter);
    forall i | 0 <= i < n
      ensures !IsCopySuffix(name[i..])
    {
      var s := name[i..];
      assert s[n - i] == '-' && s[n - i + 5] == '-';
      if |s| > 6 && s[..6] == "-copy-" {
        assert s[..6][5] == '-' && (n - i < 6 ==> s[..6][n - i] == s[n - i]);
      }
    }
    StripFindsSuffix(name, 0, n);
    assert name[..n] == stem;
  }

  /** What the suffix looks like: the bare word, or the word, a dash and at least one digit. */
  ghost predicate CopyEnding(s: string) {
    || s == "-copy"
    || exists digits: string ::
         s == "-copy-" + digits && |digits| > 0 && forall i :: 0 <= i < |digits| ==> '0' <= digits[i] <= '9'
  }

  lemma CopyEndingExact(s: string)
    ensures IsCopySuffix(s) <==> CopyEnding(s)
  {
    if IsCopySuffix(s) && s != "-copy" {
      assert s == "-copy-" + s[6..];
    }
  }

  lemma {:induction false} StripNothing(name: string, k: nat)
    requires k <= |name| && forall i :: k <= i <= |name| ==> !IsCopySuffix(name[i..])
    ensures StripFrom(name, k) == name
    decreases |name| - k
  {
    if k < |name| {
      StripNothing(name, k + 1);
    }
  }

  /** A name that ends in no such suffix is its own stem. */
  lemma StemIsItsOwn(name: string)
    requires forall i :: 0 <= i <= |name| ==> !CopyEnding(name[i..])
    ensures StripCopy(name) == name
  {
    forall i | 0 <= i <= |name|
      ensures !IsCopySuffix(name[i..])
    {
      CopyEndingExact(name[i..]);
    }
    StripNothing(name, 0);
  }

  /** No ending has a shorter or longer one that also reaches the end of the name. */
  lemma CopyEndingsAgree(name: string, i: nat, j: nat)
    requires i < j <= |name| && CopyEnding(name[j..])
    ensures !CopyEnding(name[i..])
  {
    CopyEndingExact(name[j..]);
    CopyEndingExact(name[i..]);
    var s, m := name[i..], j - i;
    assert name[j..] == s[m..];
    CopyEndingStarts(s[m..]);
    assert s[m] == s[m..][0] && s[m + 1] == s[m..][1];
    if |s| > 6 && s[..6] == "-copy-" {
      assert m < 6 ==> s[..6][m] == s[m];
    }
  }

  lemma CopyEndingStarts(s: string)
    requires IsCopySuffix(s)
    ensures |s| >= 5 && s[0] == '-' && s[1] == 'c'
  {
    if s != "-copy" {
      assert s[..6][0] == s[0] && s[..6][1] == s[1];
    }
  }

  /** And one that does loses exactly that. */
  lemma StemLosesEnding(stem: string, ending: string)
    requires CopyEnding(ending)
    ensures StripCopy(stem + ending) == stem
  {
    var name, n := stem + ending, |stem|;
    assert name[n..] == ending && name[..n] == stem;
    CopyEndingExact(ending);
    CopyEndingStarts(ending);
    forall i | 0 <= i < n
      ensures !IsCopySuffix(name[i..])
    {
      CopyEndingsAgree(name, i, n);
      CopyEndingExact(name[i..]);
    }
    StripFindsSuffix(name, 0, n);
  }

  // ---- The builder

  datatype CanvasStep = CanvasStep(step: Step, x: nat, y: nat)

  function Placed(steps: seq<Step>): seq<CanvasStep> {
    seq(|steps|, i requires 0 <= i < |steps| => CanvasStep(steps[i], 0, i * 120))
  }

  /** The steps of the copy stand below each other, 120 apart, in order. */
  lemma PlacedExact(steps: seq<Step>, i: nat)
    requires i < |steps|
    ensures |Placed(steps)| == |steps| && Placed(steps)[i] == CanvasStep(steps[i], 0, 120 * i)
  {}

  /** The result of a search that starts with `base` and goes on with numbered names. */
  ghost predicate FirstFree(name: string, base: string, prefix: string, taken: set<string>) {
    && name !in taken
    && (name == base ||
        (base in taken &&
         exists c: nat :: 2 <= c <= |taken| + 2 && name == prefix + Decimal(c) &&
                          forall k: nat :: 2 <= k < c ==> prefix + Decimal(k) in taken))
  }

  /** The state of the search after `counter - 1` turns. */
  ghost predicate Searching(name: string, base: string, prefix: string, taken: set<string>, counter: nat) {
    && 1 <= counter <= |taken| + 2
    && name == (if counter == 1 then base else prefix + Decimal(counter))
    && (counter > 1 ==> base in taken)
    && forall k: nat :: 2 <= k < counter ==> prefix + Decimal(k) in taken
  }

  lemma TriedAreTaken(name: string, base: string, prefix: string, taken: set<string>, counter: nat)
    requires Searching(name, base, prefix, taken, counter) && name in taken
    ensures base in taken && forall n :: n in Tried(prefix, counter) ==> n in taken
    ensures forall k: nat :: 2 <= k < counter + 1 ==> prefix + Decimal(k) in taken
  {
    forall k: nat | 2 <= k < counter + 1
      ensures prefix + Decimal(k) in taken
    {
      if k == counter {
        assert name == prefix + Decimal(k);
      }
    }
    forall n | n in Tried(prefix, counter)
      ensures n in taken
    {
      var k :| 0 <= k < counter - 1 && Tried(prefix, counter)[k] == n;
      assert n == prefix + Decimal(k + 2);
    }
  }

  lemma SearchGoesOn(name: string, base: string, prefix: string, taken: set<string>, counter: nat)
    requires Searching(name, base, prefix, taken, counter) && name in taken
    ensures counter - 1 <= |taken|
    ensures |base| < |prefix| ==> counter <= |taken|
    ensures Searching(prefix + Decimal(counter + 1), base, prefix, taken, counter + 1)
  {
    TriedAreTaken(name, base, prefix, taken, counter);
    TakenNamesBound(prefix, counter, taken);
    if |base| < |prefix| {
      BaseAndTakenNamesBound(base, prefix, counter, taken);
    }
  }

  class PipelineCanvas {
    var existingPipelineNames: set<string>
    var pipeline: Spec
    var canvasSteps: seq<CanvasStep>

    constructor (pipeline: Spec)
      ensures this.pipeline == pipeline
    {
      this.pipeline := pipeline;
      existingPipelineNames, canvasSteps := {}, [];
    }

    /** `listing` is the server's answer; None when the request failed. */
    method LoadFromCopiedPipeline(copied: Spec, listing: Option<seq<string>>) returns (ghost turns: nat)
      modifies this
      ensures listing.Some? ==> existingPipelineNames == set name | name in listing.value
      ensures listing.Some? ==>
                FirstFree(pipeline.name, copied.name, StripCopy(copied.name) + "-copy-", existingPipelineNames)
      ensures listing.Some? ==> turns <= |existingPipelineNames| + 1
      ensures listing.None? ==> pipeline.name == copied.name && existingPipelineNames == old(existingPipelineNames)
      ensures pipeline.steps == copied.steps
      ensures canvasSteps == if copied.steps == [] then old(canvasSteps) else Placed(copied.steps)
    {
      turns := 0;
      if listing.None? {
        pipeline := copied;
      } else {
        existingPipelineNames := set name | name in listing.value;
        ghost var taken := existingPipelineNames;
        var prefix := StripCopy(copied.name) + "-copy-";
        var uniqueName, counter := copied.name, 1;
        while uniqueName in existingPipelineNames
          invariant counter >= 1 && turns == counter - 1
          invariant Searching(uniqueName, copied.name, prefix, taken, counter)
          invariant existingPipelineNames == taken && canvasSteps == old(canvasSteps)
          decreases |existingPipelineNames| + 2 - counter
        {
          SearchGoesOn(uniqueName, copied.name, prefix, taken, counter);
          counter := counter + 1;
          uniqueName := prefix + Decimal(counter);
          turns := turns + 1;
        }
        pipeline := copied.(name := uniqueName);
      }
      if |copied.steps| > 0 {
        canvasSteps := Placed(copied.steps);
      }
    }

    method LoadExistingPipelines(listing: Option<seq<string>>) returns (ghost turns: nat)
      modifies this`existingPipelineNames, this`pipeline
      ensures listing.Some? ==> existingPipelineNames == set name | name in listing.value
      ensures listing.Some? ==> FirstFree(pipeline.name, "new-pipeline", "new-pipeline-", existingPipelineNames)
      ensures listing.Some? ==> turns <= |existingPipelineNames|
      ensures listing.None? ==> pipeline == old(pipeline) && existingPipelineNames == old(existingPipelineNames)
      ensures pipeline.steps == old(pipeline.steps)
    {
      turns := 0;
      if listing.Some? {
        existingPipelineNames := set name | name in listing.value;
        ghost var taken := existingPipelineNames;
        var baseName, prefix := "new-pipeline", "new-pipeline-";
        var uniqueName, counter := baseName, 1;
        while uniqueName in existingPipelineNames
          invariant counter >= 1 && turns == counter - 1 && turns <= |taken|
          invariant Searching(uniqueName, baseName, prefix, taken, counter)
          invariant existingPipelineNames == taken && pipeline == old(pipeline)
          decreases |existingPipelineNames| + 2 - counter
        {
          SearchGoesOn(uniqueName, baseName, prefix, taken, counter);
          counter := counter + 1;
          uniqueName := prefix + Decimal(counter);
          turns := turns + 1;
        }
        pipeline := pipeline.(name := uniqueName);
      }
    }
  }

  /** When the base name is not itself a numbered name, it takes up one more place. */
  lemma BaseAndTakenNamesBound(base: string, prefix: string, counter: nat, taken: set<string>)
    requires |base| < |prefix| && counter >= 1
    requires base in taken && forall name :: name in Tried(prefix, counter) ==> name in taken
    ensures counter <= |taken|
  {
    var names := Tried(prefix, counter);
    TriedDiffer(prefix, counter);
    var all := [base] + names;
    assert Distinct(all) by {
      forall i, j | 0 <= i < j < |all|
        ensures all[i] != all[j]
      {
        assert all[j] == names[j - 1];
        if i > 0 {
          assert all[i] == names[i - 1];
        }
      }
    }
    DistinctFits(all, taken);
  }
}
