/**
 * The persona loader: WhatsApp transcripts are read, concatenated and cut into
 * lines; every line that the transcript pattern matches gives the text after
 * the speaker label, and the cleaned-up texts become the exemplar utterances
 * the prompt shows to the model.
 */
module PersonaLoader {
  import opened Wrappers
  import opened JsString

  /** The placeholder a WhatsApp export writes where a media message was left out. */
  const HiddenMedia: string := "<Mídia oculta>"

  /** The speaker group `(Gabriel\s"Russo"|Russo)` of the transcript pattern. */
  predicate IsSpeaker(w: string) {
    w == "Russo" ||
    (|w| == 15 && w[..7] == "Gabriel" && IsSpace(w[7]) && w[8..] == "\"Russo\"")
  }

  /**
   * The pattern `-\s(Gabriel\s"Russo"|Russo):\s(.+)` matches `s` at position `i`
   * and its second group starts at `p`: a hyphen, one whitespace, a speaker
   * label, a colon, one whitespace, and at least one character that is not a
   * line terminator.
   */
  predicate PatternAt(s: string, i: nat, p: nat) {
    i + 4 <= p < |s| &&
    s[i] == '-' && IsSpace(s[i + 1]) &&
    IsSpeaker(s[i + 2..p - 2]) &&
    s[p - 2] == ':' && IsSpace(s[p - 1]) &&
    !IsLineTerminator(s[p])
  }

  /** The pattern matches somewhere starting at position `i`. */
  ghost predicate MatchesAt(s: string, i: nat) {
    exists p: nat :: PatternAt(s, i, p)
  }

  /** Where the speaker group ends when it starts at `j`, trying `Gabriel\s"Russo"` before `Russo`. */
  function SpeakerEnd(s: string, j: nat): (r: Option<nat>)
    requires j <= |s|
    ensures forall k: nat :: j <= k <= |s| ==> (IsSpeaker(s[j..k]) <==> r == Some(k))
  {
    if j + 15 <= |s| && s[j..j + 7] == "Gabriel" && IsSpace(s[j + 7]) && s[j + 8..j + 15] == "\"Russo\"" then
      assert s[j] == 'G';
      Some(j + 15)
    else if j + 5 <= |s| && s[j..j + 5] == "Russo" then
      assert s[j] == 'R';
      Some(j + 5)
    else
      None
  }

  /** Tries the pattern at position `i` only, giving the start of the second group. */
  function MatchAt(s: string, i: nat): (r: Option<nat>)
    ensures r.Some? ==> PatternAt(s, i, r.value)
    ensures forall p: nat :: PatternAt(s, i, p) ==> r == Some(p)
  {
    if i + 2 <= |s| && s[i] == '-' && IsSpace(s[i + 1]) then
      match SpeakerEnd(s, i + 2)
      case Some(k) =>
        if k + 2 < |s| && s[k] == ':' && IsSpace(s[k + 1]) && !IsLineTerminator(s[k + 2]) then Some(k + 2) else None
      case None => None
    else
      None
  }

  /** Where the pattern matched: its start and the start of the second group. */
  datatype Match = Match(index: nat, captureStart: nat)

  /** The leftmost match at or after `from`, as `String.prototype.match` finds it; the pattern is not anchored. */
  function FindMatch(s: string, from: nat): (r: Option<Match>)
    requires from <= |s|
    ensures r.Some? ==> from <= r.value.index && PatternAt(s, r.value.index, r.value.captureStart)
    ensures r.Some? ==> forall j: nat :: from <= j < r.value.index ==> !MatchesAt(s, j)
    ensures r.None? ==> forall j: nat :: from <= j ==> !MatchesAt(s, j)
    decreases |s| - from
  {
    if from == |s| then None
    else
      match MatchAt(s, from)
      case Some(p) => Some(Match(from, p))
      case None => FindMatch(s, from + 1)
  }

  /** The greedy `(.+)`: the longest prefix of `t` without a line terminator. */
  function TakeLine(t: string): (r: string)
    ensures |r| <= |t| && r == t[..|r|]
    ensures forall c | c in r :: !IsLineTerminator(c)
    ensures |r| == |t| || IsLineTerminator(t[|r|])
  {
    if t == [] || IsLineTerminator(t[0]) then [] else [t[0]] + TakeLine(t[1..])
  }

  /** The greedy group stops at the first line terminator, or runs to the end of the line. */
  lemma {:induction false} TakeLineUpTo(t: string, k: nat)
    requires k <= |t|
    requires forall j :: 0 <= j < k ==> !IsLineTerminator(t[j])
    requires k == |t| || IsLineTerminator(t[k])
    ensures TakeLine(t) == t[..k]
  {
    if k > 0 {
      TakeLineUpTo(t[1..], k - 1);
      assert [t[0]] + t[1..][..k - 1] == t[..k];
    }
  }

  /** One line through the `map` step: `match[2].trim()` when the line matches, `null` otherwise. */
  function Captured(line: string): (r: Option<string>)
    ensures r.Some? ==> Trim(r.value) == r.value && forall c | c in r.value :: !IsLineTerminator(c)
  {
    match FindMatch(line, 0)
    case None => None
    case Some(m) =>
      var text := TakeLine(line[m.captureStart..]);
      TrimIdempotent(text);
      Some(Trim(text))
  }

  /** The `filter` step: not `null`, not the hidden-media placeholder, and longer than three code units once trimmed. */
  predicate Kept(x: Option<string>) {
    x.Some? && x.value != HiddenMedia && Utf16Length(Trim(x.value)) > 3
  }

  /** What every stored exemplar is: trimmed, longer than three code units, not the placeholder, on one line. */
  predicate IsExemplar(e: string) {
    Trim(e) == e && Utf16Length(e) > 3 && e != HiddenMedia && forall c | c in e :: !IsLineTerminator(c)
  }

  /** One line through the `map`/`filter` chain: its capture when the filter keeps it, nothing otherwise. */
  function LineExemplar(line: string): seq<string>
  {
    var x := Captured(line);
    if Kept(x) then [x.value] else []
  }

  /** The `map`/`filter` chain over the lines, in line order. */
  function Exemplars(lines: seq<string>): (r: seq<string>)
    ensures |r| <= |lines|
  {
    if lines == [] then [] else LineExemplar(lines[0]) + Exemplars(lines[1..])
  }

  /** Every exemplar is clean: trimmed, longer than three code units, not the placeholder, on one line. */
  lemma {:induction false} ExemplarsClean(lines: seq<string>)
    ensures forall e | e in Exemplars(lines) :: IsExemplar(e)
  {
    if lines != [] {
      ExemplarsClean(lines[1..]);
      var x := Captured(lines[0]);
      var head := LineExemplar(lines[0]);
      assert Exemplars(lines) == head + Exemplars(lines[1..]);
      forall e | e in head ensures IsExemplar(e) {
        assert e == x.value && Trim(e) == e;
      }
    }
  }

  /** The pattern fixes where its second group starts: a match position has one capture start. */
  lemma PatternAtUnique(s: string, i: nat, p: nat, q: nat)
    requires PatternAt(s, i, p) && PatternAt(s, i, q)
    ensures p == q
  {
    var r := MatchAt(s, i);
  }

  /**
   * A line whose leftmost match is at `i` with its group at `p` yields the trimmed
   * rest of that line: the text up to the first line terminator after `p`.
   */
  lemma CapturedAtLeftmostMatch(line: string, i: nat, p: nat)
    requires PatternAt(line, i, p)
    requires forall j: nat :: j < i ==> !MatchesAt(line, j)
    ensures Captured(line) == Some(Trim(TakeLine(line[p..])))
  {
    assert MatchesAt(line, i);
    var m := FindMatch(line, 0);
    assert m.Some?;
    assert MatchesAt(line, m.value.index);
    PatternAtUnique(line, i, p, m.value.captureStart);
  }

  /** A line on which the pattern matches nowhere yields nothing. */
  lemma CapturedWithoutMatch(line: string)
    requires forall j: nat :: !MatchesAt(line, j)
    ensures Captured(line) == None
  {
    var m := FindMatch(line, 0);
    if m.Some? {
      assert MatchesAt(line, m.value.index);
    }
  }

  /** The `map`/`filter` chain works line by line, so exemplars keep the order of their lines. */
  lemma {:induction false} ExemplarsAppend(a: seq<string>, b: seq<string>)
    ensures Exemplars(a + b) == Exemplars(a) + Exemplars(b)
  {
    if a != [] {
      assert (a + b)[0] == a[0] && (a + b)[1..] == a[1..] + b;
      ExemplarsAppend(a[1..], b);
    } else {
      assert a + b == b;
    }
  }

  /** An exemplar is exactly a kept capture of one of the lines. */
  lemma {:induction false} ExemplarsFromLines(lines: seq<string>, e: string)
    ensures e in Exemplars(lines) <==> exists k :: 0 <= k < |lines| && Kept(Captured(lines[k])) && Captured(lines[k]).value == e
  {
    if lines != [] {
      ExemplarsFromLines(lines[1..], e);
      if e in Exemplars(lines[1..]) {
        var k :| 0 <= k < |lines[1..]| && Kept(Captured(lines[1..][k])) && Captured(lines[1..][k]).value == e;
        assert lines[1..][k] == lines[k + 1];
      }
      if exists k :: 0 <= k < |lines| && Kept(Captured(lines[k])) && Captured(lines[k]).value == e {
        var k :| 0 <= k < |lines| && Kept(Captured(lines[k])) && Captured(lines[k]).value == e;
        if k > 0 {
          assert lines[1..][k - 1] == lines[k];
        }
      }
    }
  }

  /** A date and time prefix without a hyphen cannot hold a match. */
  lemma NoMatchInsidePrefix(prefix: string, tail: string)
    requires forall c | c in prefix :: c != '-'
    ensures forall j: nat :: j < |prefix| ==> !MatchesAt(prefix + tail, j)
  {
    forall j: nat | j < |prefix| ensures !MatchesAt(prefix + tail, j) {
      assert (prefix + tail)[j] == prefix[j] && prefix[j] in prefix;
    }
  }
  /**
   * In `<prefix>- <speaker>: <tail>`, with no hyphen in the prefix and a tail that
   * starts on the same line, the leftmost match is right after the prefix and its
   * group starts where the tail does.
   */
  lemma LabelledLine(prefix: string, speaker: string, tail: string)
    requires forall c | c in prefix :: c != '-'
    requires IsSpeaker(speaker)
    requires tail != [] && !IsLineTerminator(tail[0])
    ensures var line := prefix + "- " + speaker + ": " + tail; var p := |prefix| + |speaker| + 4;
      && PatternAt(line, |prefix|, p)
      && (forall j: nat :: j < |prefix| ==> !MatchesAt(line, j))
      && line[p..] == tail
  {
    var rest := "- " + speaker + ": " + tail;
    var line := prefix + "- " + speaker + ": " + tail;
    var i := |prefix|;
    var p := i + |speaker| + 4;
    assert line == prefix + rest;
    assert line[i..] == rest;
    assert rest[2..2 + |speaker|] == speaker;
    assert line[i + 2..i + 2 + |speaker|] == speaker;
    assert rest[|speaker| + 4..] == tail;
    assert line[p..] == tail;
    NoMatchInsidePrefix(prefix, rest);
  }

  /** Such a line yields the trimmed group that starts right after the label. */
  lemma CapturedAfterLabel(prefix: string, speaker: string, tail: string)
    requires forall c | c in prefix :: c != '-'
    requires IsSpeaker(speaker)
    requires tail != [] && !IsLineTerminator(tail[0])
    ensures Captured(prefix + "- " + speaker + ": " + tail) == Some(Trim(TakeLine(tail)))
  {
    LabelledLine(prefix, speaker, tail);
    CapturedAtLeftmostMatch(prefix + "- " + speaker + ": " + tail, |prefix|, |prefix| + |speaker| + 4);
  }

  /**
   * A WhatsApp export line `<date>, <time> - <speaker>: <text>` yields the trimmed
   * text, cut at the first line terminator (the `\r` of a CRLF export).
   */
  lemma TranscriptLine(prefix: string, speaker: string, text: string, rest: string)
    requires forall c | c in prefix :: c != '-'
    requires IsSpeaker(speaker)
    requires text != [] && forall c | c in text :: !IsLineTerminator(c)
    requires rest == [] || IsLineTerminator(rest[0])
    ensures Captured(prefix + "- " + speaker + ": " + (text + rest)) == Some(Trim(text))
  {
    assert text[0] in text;
    CapturedAfterLabel(prefix, speaker, text + rest);
    TakeLineUpTo(text + rest, |text|);
    assert (text + rest)[..|text|] == text;
  }

  /** A transcript line whose text is already clean yields that text as its one exemplar. */
  lemma CleanLineExemplar(prefix: string, speaker: string, text: string)
    requires forall c | c in prefix :: c != '-'
    requires IsSpeaker(speaker)
    requires text != [] && forall c | c in text :: !IsLineTerminator(c)
    requires IsTrimmed(text) && text != HiddenMedia && Utf16Length(text) > 3
    ensures Exemplars([prefix + "- " + speaker + ": " + text]) == [text]
  {
    var line := prefix + "- " + speaker + ": " + text;
    assert line == prefix + "- " + speaker + ": " + (text + "");
    TranscriptLine(prefix, speaker, text, "");
    TrimFixesTrimmed(text);
    assert Exemplars([line]) == [text] + Exemplars([line][1..]);
  }

  /** A message of two letters and an emoji is four code units long, so it is kept. */
  lemma EmojiMessageKept()
    ensures Exemplars(["- Russo: oi\U{1F602}"]) == ["oi\U{1F602}"]
  {
    var text := "oi\U{1F602}";
    assert "- Russo: oi\U{1F602}" == "" + "- " + "Russo" + ": " + text;
    assert IsTrimmed(text) && !IsLineTerminator(text[1]);
    assert Utf16Length(text) == 4 by {
      assert text[1..][1..][1..] == [];
    }
    CleanLineExemplar("", "Russo", text);
  }

  /** `allContent`: the texts of the files that could be read, concatenated in list order. */
  function Concatenated(sources: seq<Option<string>>): string
  {
    if sources == [] then ""
    else
      Concatenated(sources[..|sources| - 1]) +
      match sources[|sources| - 1] case Some(text) => text case None => ""
  }

  /** Reading in list order: the texts of later files follow those of earlier ones, with nothing in between. */
  lemma {:induction false} ConcatenatedAppend(a: seq<Option<string>>, b: seq<Option<string>>)
    ensures Concatenated(a + b) == Concatenated(a) + Concatenated(b)
    decreases |b|
  {
    if b == [] {
      assert a + b == a;
    } else {
      assert (a + b)[..|a + b| - 1] == a + b[..|b| - 1];
      ConcatenatedAppend(a, b[..|b| - 1]);
    }
  }

  /** Nothing is read exactly when every file is missing, unreadable or empty. */
  lemma {:induction false} ConcatenatedEmpty(sources: seq<Option<string>>)
    ensures Concatenated(sources) == "" <==> forall k :: 0 <= k < |sources| ==> sources[k] == None || sources[k] == Some("")
  {
    if sources != [] {
      var init := sources[..|sources| - 1];
      ConcatenatedEmpty(init);
      assert forall k :: 0 <= k < |init| ==> init[k] == sources[k];
    }
  }

  /** The module-level exemplar list, `russoMessages`. */
  class Persona {
    var messages: seq<string>

    /** Every stored exemplar is clean. */
    ghost predicate Valid()
      reads this
    {
      forall e | e in messages :: IsExemplar(e)
    }

    /** `let russoMessages = []` */
    constructor ()
      ensures Valid() && messages == []
    {
      messages := [];
    }

    /**
     * `loadRussoPersonality`: `sources` holds, for each transcript file in list
     * order, its text or `None` when it is missing or could not be read. When
     * nothing was read the list is left as it was; otherwise it is replaced by
     * the exemplars of the concatenated text's lines.
     */
    method Load(sources: seq<Option<string>>)
      requires Valid()
      modifies this
      ensures Valid()
      ensures Concatenated(sources) == "" ==> messages == old(messages)
      ensures Concatenated(sources) != "" ==> messages == Exemplars(SplitOn(Concatenated(sources), "\n"))
    {
      var allContent := "";
      for i := 0 to |sources|
        invariant allContent == Concatenated(sources[..i])
      {
        assert sources[..i + 1][..i] == sources[..i];
        match sources[i]
        case Some(text) => allContent := allContent + text;
        case None =>
      }
      assert sources[..|sources|] == sources;
      if allContent == "" {
        return;
      }
      var lines := SplitOn(allContent, "\n");
      ExemplarsClean(lines);
      messages := Exemplars(lines);
    }
  }
}
