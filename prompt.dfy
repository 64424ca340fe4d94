/**
 * The prompt assembler: a fixed persona description, then up to 1024 exemplars
 * as quoted bullet lines in shuffled order (or a fallback sentence when there
 * are none), then a fixed closing instruction.
 */
module PromptAssembly {
  import opened JsString

  /** Stand-in for the persona description and rules that open every prompt; it ends with a blank line. */
  const PromptPrefix: string := "<persona description, behavioural rules, tone-not-topic note>:\n\n"

  /** Stand-in for the sentence used when no exemplar was loaded. */
  const NoExamplesText: string := "<no examples loaded; follow the described persona>"

  /** Stand-in for the closing instruction; like the original it starts on a new line. */
  const PromptClosing: string := "\n<now answer the following conversation in character>"

  /** At most this many exemplars go into one prompt. */
  const SampleLimit: nat := 1024

  /** `Math.min(1024, n)` */
  function SampleSize(n: nat): (k: nat)
    ensures k <= n && k <= SampleLimit
    ensures k == n || k == SampleLimit
  {
    if n < SampleLimit then n else SampleLimit
  }

  /** One exemplar as the template `- "${example}"` writes it, without its newline. */
  function BulletLine(example: string): string {
    "- \"" + example + "\""
  }

  /** The bullet lines of `examples`, each followed by a newline. */
  function Bullets(examples: seq<string>): string {
    if examples == [] then "" else BulletLine(examples[0]) + "\n" + Bullets(examples[1..])
  }

  /** Adding one exemplar at the end adds one bullet line at the end. */
  lemma {:induction false} BulletsSnoc(examples: seq<string>, example: string)
    ensures Bullets(examples + [example]) == Bullets(examples) + BulletLine(example) + "\n"
  {
    if examples != [] {
      assert (examples + [example])[1..] == examples[1..] + [example];
      BulletsSnoc(examples[1..], example);
    } else {
      assert [example][1..] == [];
    }
  }

  /**
   * The prompt for the exemplars in the order the shuffle left them: the first
   * `min(1024, n)` of them as bullets, or the fallback sentence when there are none.
   */
  function SystemPrompt(shuffled: seq<string>): string {
    PromptPrefix +
    (if |shuffled| > 0 then Bullets(shuffled[..SampleSize(|shuffled|)]) else NoExamplesText) +
    PromptClosing
  }

  /**
   * Builds the prompt string by appending one bullet per sampled exemplar.
   * `shuffled` is what `[...russoMessages].sort(() => 0.5 - Math.random())`
   * returned: some permutation of a copy of the exemplars.
   */
  method BuildSystemPrompt(exemplars: seq<string>, shuffled: seq<string>) returns (prompt: string)
    requires multiset(shuffled) == multiset(exemplars)
    ensures prompt == SystemPrompt(shuffled)
  {
    assert |shuffled| == |multiset(shuffled)| == |exemplars|;
    prompt := PromptPrefix;
    if |exemplars| > 0 {
      var exampleCount := SampleSize(|exemplars|);
      var examples := shuffled[..exampleCount];
      for i := 0 to |examples|
        invariant prompt == PromptPrefix + Bullets(examples[..i])
      {
        assert examples[..i + 1] == examples[..i] + [examples[i]];
        BulletsSnoc(examples[..i], examples[i]);
        prompt := prompt + BulletLine(examples[i]) + "\n";
      }
      assert examples[..|examples|] == examples;
    } else {
      prompt := prompt + NoExamplesText;
    }
    prompt := prompt + PromptClosing;
  }

  /** Cutting the bullets at their newlines gives back one bullet line per exemplar, and an empty rest. */
  lemma {:induction false} BulletsSplit(examples: seq<string>)
    requires forall e | e in examples :: '\n' !in e
    ensures SplitOn(Bullets(examples), "\n") == seq(|examples|, k requires 0 <= k < |examples| => BulletLine(examples[k])) + [""]
  {
    if examples == [] {
      assert SplitOn("", "\n") == [""];
    } else {
      var line := BulletLine(examples[0]);
      assert '\n' !in examples[0];
      assert '\n' !in line;
      SplitAtFirstLineBreak(line, Bullets(examples[1..]));
      BulletsSplit(examples[1..]);
      var lines := seq(|examples|, k requires 0 <= k < |examples| => BulletLine(examples[k]));
      assert lines == [line] + seq(|examples[1..]|, k requires 0 <= k < |examples[1..]| => BulletLine(examples[1..][k]));
    }
  }

  /**
   * With n > 0 exemplars the prompt is the prefix, exactly `min(1024, n)` bullet
   * lines whose texts form a sub-multiset of the exemplars, and the closing line.
   */
  lemma PromptSample(exemplars: seq<string>, shuffled: seq<string>)
    requires multiset(shuffled) == multiset(exemplars)
    requires |exemplars| > 0
    requires forall e | e in exemplars :: '\n' !in e
    ensures |shuffled| == |exemplars|
    ensures var sample := shuffled[..SampleSize(|shuffled|)];
      && |sample| == SampleSize(|exemplars|)
      && multiset(sample) <= multiset(exemplars)
      && SystemPrompt(shuffled) == PromptPrefix + Bullets(sample) + PromptClosing
      && SplitOn(Bullets(sample), "\n") == seq(|sample|, k requires 0 <= k < |sample| => BulletLine(sample[k])) + [""]
  {
    assert |shuffled| == |multiset(shuffled)| == |exemplars|;
    var sample := shuffled[..SampleSize(|exemplars|)];
    assert shuffled == sample + shuffled[|sample|..];
    forall e | e in sample ensures '\n' !in e {
      assert e in multiset(shuffled);
    }
    BulletsSplit(sample);
  }

  /** Without exemplars the prompt is the prefix, the fallback sentence and the closing line. */
  lemma PromptWithoutExemplars(exemplars: seq<string>, shuffled: seq<string>)
    requires multiset(shuffled) == multiset(exemplars)
    requires exemplars == []
    ensures SystemPrompt(shuffled) == PromptPrefix + NoExamplesText + PromptClosing
  {
    assert |shuffled| == |multiset(shuffled)| == 0;
  }
}
