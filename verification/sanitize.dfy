/**
 `sanitize_filename` of src/utils/video_processor.py: every character that
 is not allowed in a file name is replaced by `_`.

 The source runs `str.replace(char, '_')` once for each invalid character in
 turn. `ReplaceEach` models exactly that sequence of passes; `SanitizeFilename`
 is the one-pass, character-by-character reading, and `SanitizeIsPasses`
 shows the two agree on every input.
 */
module Sanitize {
  import opened Text

  /** The characters `<>:"/\|?*`, in the order the source replaces them. */
  const InvalidChars: string := "<>:\"/\\|?*"

  const Replacement: char := '_'

  predicate IsInvalid(c: char)
    ensures IsInvalid(c) <==> c in InvalidChars
  {
    c == '<' || c == '>' || c == ':' || c == '"' || c == '/' || c == '\\' || c == '|' || c == '?' || c == '*'
  }

  /** No character of `s` is an invalid one. */
  predicate Clean(s: string) {
    forall i :: 0 <= i < |s| ==> !IsInvalid(s[i])
  }

  /** The character that stands in the output for `c`. */
  function SanitizeChar(c: char): char {
    if IsInvalid(c) then Replacement else c
  }

  /** One `replace` pass per character of `chars`, in order. */
  function ReplaceEach(s: string, chars: string): string
    decreases |chars|
  {
    if chars == [] then s else ReplaceEach(ReplaceChar(s, chars[0], Replacement), chars[1..])
  }

  /**
   The passes together act character by character: a position holding one
   of `chars` becomes `_`, every other position is left alone.
   */
  lemma {:induction false} ReplaceEachPointwise(s: string, chars: string)
    requires Replacement !in chars
    ensures |ReplaceEach(s, chars)| == |s|
    ensures forall i :: 0 <= i < |s| ==>
              ReplaceEach(s, chars)[i] == (if s[i] in chars then Replacement else s[i])
    decreases |chars|
  {
    if chars != [] {
      var s' := ReplaceChar(s, chars[0], Replacement);
      ReplaceCharPointwise(s, chars[0], Replacement);
      ReplaceEachPointwise(s', chars[1..]);
      forall i | 0 <= i < |s|
        ensures ReplaceEach(s, chars)[i] == (if s[i] in chars then Replacement else s[i])
      {
        assert s[i] in chars <==> s[i] == chars[0] || s[i] in chars[1..] by {
          assert chars == [chars[0]] + chars[1..];
        }
      }
    }
  }

  /**
   `sanitize_filename(filename)`, read one character at a time: same length,
   and no invalid character is left.
   */
  function SanitizeFilename(filename: string): (r: string)
    ensures |r| == |filename|
    ensures Clean(r)
  {
    seq(|filename|, i requires 0 <= i < |filename| => SanitizeChar(filename[i]))
  }

  /**
   The one-pass reading is what the source computes: its `replace` passes,
   one per invalid character in order, give the same string.
   */
  lemma SanitizeIsPasses(s: string)
    ensures SanitizeFilename(s) == ReplaceEach(s, InvalidChars)
  {
    ReplaceEachPointwise(s, InvalidChars);
  }

  /** Sanitising twice is the same as sanitising once. */
  lemma SanitizeIdempotent(s: string)
    ensures SanitizeFilename(SanitizeFilename(s)) == SanitizeFilename(s)
  {
  }

  /** A name is returned unchanged exactly when it has no invalid character. */
  lemma SanitizeFixedPoint(s: string)
    ensures SanitizeFilename(s) == s <==> Clean(s)
  {
    if SanitizeFilename(s) == s {
      assert Clean(SanitizeFilename(s));
    }
  }

  /** Sanitising works piece by piece: it commutes with concatenation. */
  lemma SanitizeConcat(a: string, b: string)
    ensures SanitizeFilename(a + b) == SanitizeFilename(a) + SanitizeFilename(b)
  {
    var r, ra, rb := SanitizeFilename(a + b), SanitizeFilename(a), SanitizeFilename(b);
    forall i | 0 <= i < |r|
      ensures r[i] == (ra + rb)[i]
    {
      if i < |a| {
        assert r[i] == SanitizeChar(a[i]) == ra[i];
      } else {
        assert r[i] == SanitizeChar(b[i - |a|]) == rb[i - |a|];
      }
    }
  }

  /**
   A title like `My: Video`: an invalid character between two clean parts
   becomes `_` and the parts are kept as they are.
   */
  lemma ExampleTitle(x: string, c: char, y: string)
    requires Clean(x) && IsInvalid(c) && Clean(y)
    ensures SanitizeFilename(x + [c] + y) == x + "_" + y
  {
    SanitizeConcat(x + [c], y);
    SanitizeConcat(x, [c]);
    SanitizeFixedPoint(x);
    SanitizeFixedPoint(y);
    assert SanitizeFilename([c]) == "_" by {
      assert SanitizeFilename([c])[0] == SanitizeChar(c);
    }
    assert SanitizeFilename(x + [c]) == x + "_";
  }
}
