/** The clean-up applied to raw OCR output in `recognize_license_plate`:
    `"".join(raw.split()).replace(":", "").replace("-", "").strip()`.
    Each Python string operation is modelled on its own, and the chain is
    proved equal to one filter that drops whitespace, `:` and `-`. */
module TextNormalizer {

  /** The characters Python's `str.isspace()` accepts, which is the set that
      `str.split()` and `str.strip()` without arguments treat as whitespace. */
  predicate IsSpace(c: char) {
    var n := c as int;
    (0x09 <= n <= 0x0D) || (0x1C <= n <= 0x20) || n == 0x85 || n == 0xA0 || n == 0x1680
    || (0x2000 <= n <= 0x200A) || n == 0x2028 || n == 0x2029 || n == 0x202F
    || n == 0x205F || n == 0x3000
  }

  /** A character that survives normalisation. */
  predicate Kept(c: char) {
    !IsSpace(c) && c != ':' && c != '-'
  }

  // ---------------------------------------------------------------------
  // The Python operations, one by one

  /** `str.split()` scanning left to right: `word` is the run of
      non-whitespace read so far; a whitespace character or the end of the
      input closes a non-empty run. */
  function SplitFrom(s: string, word: string): seq<string>
    decreases |s|
  {
    if s == [] then
      (if word == [] then [] else [word])
    else if IsSpace(s[0]) then
      (if word == [] then [] else [word]) + SplitFrom(s[1..], [])
    else
      SplitFrom(s[1..], word + [s[0]])
  }

  /** `s.split()` with no separator. */
  function Split(s: string): seq<string> {
    SplitFrom(s, [])
  }

  /** `"".join(words)`. */
  function Join(words: seq<string>): string {
    if words == [] then [] else words[0] + Join(words[1..])
  }

  /** `s.replace(pat, rep)`: non-overlapping occurrences of `pat`, found left
      to right, are replaced by `rep`. */
  function Replace(s: string, pat: string, rep: string): string
    requires pat != []
    decreases |s|
  {
    if |s| < |pat| then s
    else if s[..|pat|] == pat then rep + Replace(s[|pat|..], pat, rep)
    else [s[0]] + Replace(s[1..], pat, rep)
  }

  function StripLeading(s: string): string {
    if s != [] && IsSpace(s[0]) then StripLeading(s[1..]) else s
  }

  function StripTrailing(s: string): string {
    if s != [] && IsSpace(s[|s| - 1]) then StripTrailing(s[..|s| - 1]) else s
  }

  /** `s.strip()` with no argument. */
  function Strip(s: string): string {
    StripTrailing(StripLeading(s))
  }

  // ---------------------------------------------------------------------
  // Reference definitions

  /** The characters of `s` that are not whitespace, in order. */
  function DropSpaces(s: string): string {
    if s == [] then [] else (if IsSpace(s[0]) then [] else [s[0]]) + DropSpaces(s[1..])
  }

  /** The characters of `s` other than `c`, in order. */
  function DropChar(s: string, c: char): string {
    if s == [] then [] else (if s[0] == c then [] else [s[0]]) + DropChar(s[1..], c)
  }

  /** The characters of `s` that normalisation keeps, in order. */
  function PlateChars(s: string): string {
    if s == [] then [] else (if Kept(s[0]) then [s[0]] else []) + PlateChars(s[1..])
  }

  // ---------------------------------------------------------------------
  // The normaliser

  /** The text `recognize_license_plate` returns for the raw OCR string
      `raw`: whitespace, `:` and `-` removed, every other character kept in
      its original order. */
  function Normalize(raw: string): (r: string)
    ensures r == PlateChars(raw)
    ensures forall i :: 0 <= i < |r| ==> Kept(r[i])
  {
    var joined := Join(Split(raw));
    var noColon := Replace(joined, ":", "");
    var noDash := Replace(noColon, "-", "");
    JoinSplitDropsSpaces(raw, []);
    assert joined == DropSpaces(raw);
    ReplaceDropsChar(joined, ':');
    ReplaceDropsChar(noColon, '-');
    DropsComposeToPlateChars(raw);
    assert noDash == PlateChars(raw);
    PlateCharsAreKept(raw);
    StripWithoutSpaces(noDash);
    Strip(noDash)
  }

  // ---------------------------------------------------------------------
  // Lemmas

  lemma {:induction false} JoinCons(w: string, ws: seq<string>)
    ensures Join([w] + ws) == w + Join(ws)
  {
    assert ([w] + ws)[0] == w;
    assert ([w] + ws)[1..] == ws;
  }

  /** Joining the words of `str.split()` removes exactly the whitespace. */
  lemma {:induction false} JoinSplitDropsSpaces(s: string, word: string)
    ensures Join(SplitFrom(s, word)) == word + DropSpaces(s)
    decreases |s|
  {
    if s == [] {
      if word != [] { JoinCons(word, []); }
    } else if IsSpace(s[0]) {
      JoinSplitDropsSpaces(s[1..], []);
      var rest := SplitFrom(s[1..], []);
      assert DropSpaces(s) == DropSpaces(s[1..]);
      if word != [] {
        JoinCons(word, rest);
      } else {
        assert [] + rest == rest;
      }
    } else {
      JoinSplitDropsSpaces(s[1..], word + [s[0]]);
      assert (word + [s[0]]) + DropSpaces(s[1..]) == word + ([s[0]] + DropSpaces(s[1..]));
    }
  }

  /** Every word `str.split()` returns is non-empty and free of whitespace. */
  lemma {:induction false} SplitWords(s: string, word: string)
    requires forall i :: 0 <= i < |word| ==> !IsSpace(word[i])
    ensures forall k :: 0 <= k < |SplitFrom(s, word)| ==>
      SplitFrom(s, word)[k] != [] &&
      forall i :: 0 <= i < |SplitFrom(s, word)[k]| ==> !IsSpace(SplitFrom(s, word)[k][i])
    decreases |s|
  {
    if s != [] {
      if IsSpace(s[0]) {
        SplitWords(s[1..], []);
      } else {
        SplitWords(s[1..], word + [s[0]]);
      }
    }
  }

  /** Replacing a one-character string by "" deletes that character. */
  lemma {:induction false} ReplaceDropsChar(s: string, c: char)
    ensures Replace(s, [c], []) == DropChar(s, c)
    decreases |s|
  {
    if s != [] {
      ReplaceDropsChar(s[1..], c);
      assert s[..1] == [s[0]];
      assert s[1..] == s[|[c]|..];
    }
  }

  lemma {:induction false} DropsComposeToPlateChars(s: string)
    ensures DropChar(DropChar(DropSpaces(s), ':'), '-') == PlateChars(s)
  {
    if s != [] {
      DropsComposeToPlateChars(s[1..]);
      var head := if IsSpace(s[0]) then [] else [s[0]];
      DropCharAppend(head, DropSpaces(s[1..]), ':');
      var head2 := if head == [] || s[0] == ':' then [] else [s[0]];
      DropCharAppend(head2, DropChar(DropSpaces(s[1..]), ':'), '-');
    }
  }

  lemma {:induction false} DropCharAppend(a: string, b: string, c: char)
    ensures DropChar(a + b, c) == DropChar(a, c) + DropChar(b, c)
  {
    if a != [] {
      assert (a + b)[0] == a[0];
      assert (a + b)[1..] == a[1..] + b;
      DropCharAppend(a[1..], b, c);
      var head := if a[0] == c then [] else [a[0]];
      assert DropChar(a + b, c) == head + (DropChar(a[1..], c) + DropChar(b, c));
      assert DropChar(a, c) == head + DropChar(a[1..], c);
    } else {
      assert a + b == b;
    }
  }

  lemma {:induction false} PlateCharsAreKept(s: string)
    ensures forall i :: 0 <= i < |PlateChars(s)| ==> Kept(PlateChars(s)[i])
  {
    if s != [] { PlateCharsAreKept(s[1..]); }
  }

  /** The final `strip()` changes nothing once no whitespace is left. */
  lemma {:induction false} StripWithoutSpaces(s: string)
    requires forall i :: 0 <= i < |s| ==> !IsSpace(s[i])
    ensures Strip(s) == s
  {
  }

  /** Filtering a string whose characters are all kept returns it. */
  lemma {:induction false} PlateCharsOfKept(s: string)
    requires forall i :: 0 <= i < |s| ==> Kept(s[i])
    ensures PlateChars(s) == s
  {
    if s != [] {
      PlateCharsOfKept(s[1..]);
      assert [s[0]] + s[1..] == s;
    }
  }

  /** Normalising a normalised string returns it unchanged. */
  lemma NormalizeIdempotent(s: string)
    ensures Normalize(Normalize(s)) == Normalize(s)
  {
    PlateCharsOfKept(Normalize(s));
  }

  /** Every kept character occurs in the result exactly as often as in the
      input; the removed characters do not occur at all. */
  lemma {:induction false} PlateCharsCounts(s: string, c: char)
    ensures multiset(PlateChars(s))[c] == if Kept(c) then multiset(s)[c] else 0
  {
    if s != [] {
      PlateCharsCounts(s[1..], c);
      assert s == [s[0]] + s[1..];
      assert multiset(s) == multiset([s[0]]) + multiset(s[1..]);
    }
  }

  /** A worked example: separators inside a plate disappear. */
  lemma NormalizeExample()
    ensures Normalize("AB:12-34") == "AB1234"
  {
    assert PlateChars("AB:12-34") == "AB1234";
  }
}
