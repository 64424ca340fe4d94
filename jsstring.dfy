/**
 * The few operations of JavaScript's String.prototype that the bot relies on:
 * `trim`, `startsWith` and `split` with a string separator, together with the
 * character classes of the ECMAScript regular expressions (`\s` and `.`).
 * Strings are `seq<char>`, sequences of Unicode scalar values; JavaScript
 * strings are sequences of UTF-16 code units, so `.length` is `Utf16Length`.
 * Every character the operations below look for (whitespace, line terminators,
 * `!`, `-`, `:`) is a single code unit, so on them the two views agree.
 */
module JsString {

  /** ECMAScript WhiteSpace or LineTerminator: the characters `\s` matches and `trim()` strips. */
  predicate IsSpace(c: char) {
    var n := c as int;
    if n <= 0x20 then n == 0x20 || 0x09 <= n <= 0x0D
    else if n < 0x2000 then n == 0xA0 || n == 0x1680
    else n <= 0x200A || n == 0x2028 || n == 0x2029 || n == 0x202F || n == 0x205F || n == 0x3000 || n == 0xFEFF
  }

  /** ECMAScript LineTerminator: the characters a regular-expression `.` does not match. */
  predicate IsLineTerminator(c: char) {
    var n := c as int;
    n == 0x0A || n == 0x0D || n == 0x2028 || n == 0x2029
  }

  /** `s.trim() === ''`: the string holds whitespace only. */
  predicate Blank(s: string) {
    forall k :: 0 <= k < |s| ==> IsSpace(s[k])
  }

  /** `s.length`: the number of UTF-16 code units, two for a character outside the Basic Multilingual Plane. */
  function Utf16Length(s: string): (r: nat)
    ensures |s| <= r <= 2 * |s|
    ensures r == |s| <==> forall k :: 0 <= k < |s| ==> s[k] as int <= 0xFFFF
  {
    if s == [] then 0
    else (if s[0] as int > 0xFFFF then 2 else 1) + Utf16Length(s[1..])
  }

  /** `s.startsWith(prefix)` */
  predicate StartsWith(s: string, prefix: string) {
    |prefix| <= |s| && s[..|prefix|] == prefix
  }

  /** Neither starts nor ends with whitespace. */
  predicate IsTrimmed(s: string) {
    s != [] ==> !IsSpace(s[0]) && !IsSpace(s[|s| - 1])
  }

  /** The index of the first non-whitespace character at or after `i`, or `|s|`. */
  function TrimStartIndex(s: string, i: nat): (r: nat)
    requires i <= |s|
    ensures i <= r <= |s|
    ensures r < |s| ==> !IsSpace(s[r])
    decreases |s| - i
  {
    if i < |s| && IsSpace(s[i]) then TrimStartIndex(s, i + 1) else i
  }

  /** The end of the text in `s[lo..j]` once its trailing whitespace is dropped. */
  function TrimEndIndex(s: string, lo: nat, j: nat): (r: nat)
    requires lo <= j <= |s|
    ensures lo <= r <= j
    ensures lo < r ==> !IsSpace(s[r - 1])
    decreases j
  {
    if lo < j && IsSpace(s[j - 1]) then TrimEndIndex(s, lo, j - 1) else j
  }

  /** Everything skipped at the front is whitespace. */
  lemma {:induction false} TrimStartSkipsSpaces(s: string, i: nat)
    requires i <= |s|
    ensures forall k :: i <= k < TrimStartIndex(s, i) ==> IsSpace(s[k])
    decreases |s| - i
  {
    if i < |s| && IsSpace(s[i]) {
      TrimStartSkipsSpaces(s, i + 1);
    }
  }

  /** Everything cut at the back is whitespace. */
  lemma {:induction false} TrimEndSkipsSpaces(s: string, lo: nat, j: nat)
    requires lo <= j <= |s|
    ensures forall k :: TrimEndIndex(s, lo, j) <= k < j ==> IsSpace(s[k])
    decreases j
  {
    if lo < j && IsSpace(s[j - 1]) {
      TrimEndSkipsSpaces(s, lo, j - 1);
    }
  }

  /** `s.trim()`: the part of `s` between its leading and its trailing whitespace. */
  function Trim(s: string): (r: string)
    ensures |r| <= |s|
    ensures IsTrimmed(r)
  {
    var lo := TrimStartIndex(s, 0);
    s[lo..TrimEndIndex(s, lo, |s|)]
  }

  /** `s.trim()` is empty exactly when `s` is whitespace only. */
  lemma TrimEmptyIffBlank(s: string)
    ensures Trim(s) == [] <==> Blank(s)
  {
    var lo := TrimStartIndex(s, 0);
    TrimStartSkipsSpaces(s, 0);
    TrimEndSkipsSpaces(s, lo, |s|);
  }

  /**
   * Trim is characterised by the cut points: whenever `s[..i]` and `s[j..]` are
   * whitespace and `s[i..j]` neither starts nor ends with whitespace, trimming
   * gives exactly `s[i..j]`.
   */
  lemma TrimIsTheCore(s: string, i: nat, j: nat)
    requires i <= j <= |s|
    requires forall k :: 0 <= k < i ==> IsSpace(s[k])
    requires forall k :: j <= k < |s| ==> IsSpace(s[k])
    requires i < j ==> !IsSpace(s[i]) && !IsSpace(s[j - 1])
    ensures Trim(s) == s[i..j]
  {
    var lo := TrimStartIndex(s, 0);
    TrimStartSkipsSpaces(s, 0);
    TrimEndSkipsSpaces(s, lo, |s|);
    if i == j {
      assert Blank(s) by {
        forall k | 0 <= k < |s| ensures IsSpace(s[k]) {
          if k < i {} else {}
        }
      }
      TrimEmptyIffBlank(s);
    } else {
      assert lo == i;
    }
  }

  /** The strings trimming leaves alone are exactly the trimmed ones. */
  lemma TrimFixesTrimmed(s: string)
    ensures Trim(s) == s <==> IsTrimmed(s)
  {
    if IsTrimmed(s) {
      TrimIsTheCore(s, 0, |s|);
    }
  }

  /** `s.trim().trim() === s.trim()` */
  lemma TrimIdempotent(s: string)
    ensures Trim(Trim(s)) == Trim(s)
  {
    var t := Trim(s);
    TrimIsTheCore(t, 0, |t|);
  }

  /** The inverse of `SplitOn`: `parts.join(sep)`. */
  function Join(parts: seq<string>, sep: string): string
  {
    if |parts| == 0 then ""
    else if |parts| == 1 then parts[0]
    else parts[0] + sep + Join(parts[1..], sep)
  }

  /** `sep` occurs in `s` starting at position `i`. */
  predicate OccursAt(s: string, sep: string, i: nat) {
    i + |sep| <= |s| && s[i..i + |sep|] == sep
  }

  /**
   * `s.split(sep)` for a non-empty string separator: the occurrences of `sep`
   * are found left to right without overlapping, and the text between them
   * becomes the pieces, so there is always at least one piece.
   */
  function SplitOn(s: string, sep: string): (r: seq<string>)
    requires sep != []
    ensures |r| >= 1
    ensures Join(r, sep) == s
    ensures r[0] == s[..|r[0]|]
    decreases |s|
  {
    if |s| < |sep| then [s]
    else if s[..|sep|] == sep then
      var rest := SplitOn(s[|sep|..], sep);
      assert Join([""] + rest, sep) == "" + sep + Join(rest, sep);
      assert s == s[..|sep|] + s[|sep|..];
      [""] + rest
    else
      var rest := SplitOn(s[1..], sep);
      JoinExtendFirst(s[0], rest, sep);
      assert s == [s[0]] + s[1..];
      [[s[0]] + rest[0]] + rest[1..]
  }

  /** Putting a character in front of the first piece puts it in front of the joined string. */
  lemma JoinExtendFirst(c: char, parts: seq<string>, sep: string)
    requires |parts| >= 1
    ensures Join([[c] + parts[0]] + parts[1..], sep) == [c] + Join(parts, sep)
  {
    var ps := [[c] + parts[0]] + parts[1..];
    assert ps[1..] == parts[1..];
  }

  /** No piece of a split contains the separator. */
  lemma {:induction false} SplitPiecesAvoidSep(s: string, sep: string)
    requires sep != []
    ensures forall piece, i | piece in SplitOn(s, sep) :: !OccursAt(piece, sep, i)
    decreases |s|
  {
    if |s| < |sep| {
    } else if s[..|sep|] == sep {
      SplitPiecesAvoidSep(s[|sep|..], sep);
    } else {
      var rest := SplitOn(s[1..], sep);
      SplitPiecesAvoidSep(s[1..], sep);
      var first := [s[0]] + rest[0];
      assert SplitOn(s, sep) == [first] + rest[1..];
      forall i: nat | OccursAt(first, sep, i) ensures false {
        if i > 0 {
          assert first[i..i + |sep|] == rest[0][i - 1..i - 1 + |sep|];
          assert OccursAt(rest[0], sep, i - 1);
        }
      }
    }
  }

  /** A string in which the separator never occurs splits into itself alone. */
  lemma {:induction false} SplitWithoutSep(s: string, sep: string)
    requires sep != []
    requires forall i :: !OccursAt(s, sep, i)
    ensures SplitOn(s, sep) == [s]
    decreases |s|
  {
    if |s| >= |sep| {
      assert !OccursAt(s, sep, 0);
      forall i: nat ensures !OccursAt(s[1..], sep, i) {
        if OccursAt(s[1..], sep, i) {
          assert s[1..][i..i + |sep|] == s[i + 1..i + 1 + |sep|];
          assert OccursAt(s, sep, i + 1);
        }
      }
      SplitWithoutSep(s[1..], sep);
    }
  }

  /** The first separator ends the first piece: when `sep` does not start inside `a`, `(a + sep + b).split(sep)` is `[a]` followed by `b.split(sep)`. */
  lemma {:induction false} SplitAtFirstSep(a: string, sep: string, b: string)
    requires sep != []
    requires forall i :: 0 <= i < |a| ==> !OccursAt(a + sep + b, sep, i)
    ensures SplitOn(a + sep + b, sep) == [a] + SplitOn(b, sep)
    decreases |a|
  {
    var s := a + sep + b;
    if a == [] {
      assert s[..|sep|] == sep && s[|sep|..] == b;
    } else {
      assert !OccursAt(s, sep, 0);
      assert s[1..] == a[1..] + sep + b;
      forall i | 0 <= i < |a[1..]| ensures !OccursAt(a[1..] + sep + b, sep, i) {
        assert !OccursAt(s, sep, i + 1);
        assert s[i + 1..i + 1 + |sep|] == s[1..][i..i + |sep|];
      }
      SplitAtFirstSep(a[1..], sep, b);
      assert [s[0]] + a[1..] == a;
    }
  }

  /** A first line without a newline is the first piece of a split at newlines. */
  lemma SplitAtFirstLineBreak(a: string, b: string)
    requires '\n' !in a
    ensures SplitOn(a + "\n" + b, "\n") == [a] + SplitOn(b, "\n")
  {
    var s := a + "\n" + b;
    forall i | 0 <= i < |a| ensures !OccursAt(s, "\n", i) {
      assert s[i..i + 1] == [a[i]] && a[i] in a;
    }
    SplitAtFirstSep(a, "\n", b);
  }

  /** Joining whitespace-only pieces with a whitespace-only separator gives a whitespace-only string. */
  lemma {:induction false} JoinBlank(parts: seq<string>, sep: string)
    requires Blank(sep)
    requires forall k :: 0 <= k < |parts| ==> Blank(parts[k])
    ensures Blank(Join(parts, sep))
  {
    if |parts| > 1 {
      JoinBlank(parts[1..], sep);
      var rest := Join(parts[1..], sep);
      assert Join(parts, sep) == parts[0] + sep + rest;
      forall k | 0 <= k < |parts[0] + sep + rest| ensures IsSpace((parts[0] + sep + rest)[k]) {
        if k < |parts[0]| {
          assert IsSpace(parts[0][k]);
        } else if k < |parts[0]| + |sep| {
          assert IsSpace(sep[k - |parts[0]|]);
        } else {
          assert IsSpace(rest[k - |parts[0]| - |sep|]);
        }
      }
    } else if |parts| == 1 {
      assert Blank(parts[0]);
    }
  }
}
