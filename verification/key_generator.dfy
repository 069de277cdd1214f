/**
  The key generator (src/core/key-generator.ts): a pure, total function from a
  component scope and a piece of UI text to a translation key of the form
  `<scope>_<Label>`, where the label is a short PascalCase rendering of the
  text's ASCII letters, digits and spaces.
 */
module KeyGenerator {
  import opened Text
  import PathName

  /** Longest cleaned text the label is built from. */
  const MaxLabelLength: nat := 30

  /** The characters the pattern `/[^a-zA-Z0-9 ]/g` does NOT delete. */
  predicate IsKeyChar(c: char) {
    IsAsciiAlphanumeric(c) || c == ' '
  }

  predicate AllKeyChars(s: string) {
    forall i :: 0 <= i < |s| ==> IsKeyChar(s[i])
  }

  /** `text.replace(/[^a-zA-Z0-9 ]/g, '')`: deletes every other character,
      keeping the order of the rest. */
  function StripSpecial(s: string): (r: string)
    ensures AllKeyChars(r)
    ensures |r| <= |s|
    ensures AllKeyChars(s) ==> r == s
  {
    if s == [] then []
    else (if IsKeyChar(s[0]) then [s[0]] else []) + StripSpecial(s[1..])
  }

  lemma {:induction false} StripSpecialAppend(a: string, b: string)
    ensures StripSpecial(a + b) == StripSpecial(a) + StripSpecial(b)
  {
    if a == [] {
      assert a + b == b;
    } else {
      var head := if IsKeyChar(a[0]) then [a[0]] else [];
      assert (a + b)[0] == a[0];
      assert (a + b)[1..] == a[1..] + b;
      calc {
        StripSpecial(a + b);
        head + StripSpecial(a[1..] + b);
        { StripSpecialAppend(a[1..], b); }
        head + (StripSpecial(a[1..]) + StripSpecial(b));
        (head + StripSpecial(a[1..])) + StripSpecial(b);
        StripSpecial(a) + StripSpecial(b);
      }
    }
  }

  /** One character: a key character is kept and any other is deleted.
      With `StripSpecialAppend` this determines the result on every string. */
  lemma StripSpecialSingle(c: char)
    ensures StripSpecial([c]) == if IsKeyChar(c) then [c] else []
  {
    assert [c][1..] == [];
  }

  /** Trimming a string of key characters leaves key characters, with no
      space at either end. */
  lemma TrimKeepsKeyChars(s: string)
    requires AllKeyChars(s)
    ensures AllKeyChars(Trim(s))
    ensures Trim(s) == [] || (Trim(s)[0] != ' ' && Trim(s)[|Trim(s)| - 1] != ' ')
    ensures |Trim(s)| <= |s|
  {
    assert IsWhitespace(' ');
    forall i | 0 <= i < |Trim(s)|
      ensures IsKeyChar(Trim(s)[i])
    {
      var j := TrimIndex(s, i);
    }
  }

  /** Step 1 of the label: strip special characters, then trim. */
  function Clean(text: string): (r: string)
    ensures AllKeyChars(r)
    ensures r == [] || (r[0] != ' ' && r[|r| - 1] != ' ')
    ensures |r| <= |text|
  {
    var stripped := StripSpecial(text);
    TrimKeepsKeyChars(stripped);
    Trim(stripped)
  }

  /** Step 2: `clean.substring(0, 30)` when longer than 30. */
  function Truncate(s: string): (r: string)
    ensures |r| <= MaxLabelLength
    ensures r <= s
    ensures |s| <= MaxLabelLength ==> r == s
    ensures |s| > MaxLabelLength ==> |r| == MaxLabelLength
  {
    if |s| > MaxLabelLength then s[..MaxLabelLength] else s
  }

  /** Index of the first space in `s`. */
  function IndexOfSpace(s: string): (i: nat)
    requires ' ' in s
    ensures i < |s| && s[i] == ' ' && ' ' !in s[..i]
  {
    if s[0] == ' ' then 0
    else
      assert ' ' in s[1..] by { var k :| 0 <= k < |s| && s[k] == ' '; assert s[1..][k - 1] == ' '; }
      var j := IndexOfSpace(s[1..]);
      assert s[..j + 1] == [s[0]] + s[1..][..j];
      j + 1
  }

  /** `words.join(' ')`. */
  function JoinWithSpace(words: seq<string>): string {
    if |words| == 0 then ""
    else if |words| == 1 then words[0]
    else words[0] + " " + JoinWithSpace(words[1..])
  }

  /** `s.split(' ')`: every piece between consecutive spaces, empty pieces
      included, so the result is never empty and joining it back with single
      spaces gives `s` again. */
  function SplitOnSpace(s: string): (words: seq<string>)
    ensures |words| >= 1
    ensures forall i :: 0 <= i < |words| ==> ' ' !in words[i]
    ensures JoinWithSpace(words) == s
    decreases |s|
  {
    if ' ' !in s then [s]
    else
      var i := IndexOfSpace(s);
      var rest := SplitOnSpace(s[i + 1..]);
      assert s == s[..i] + " " + s[i + 1..];
      [s[..i]] + rest
  }

  /** The other direction of the round trip: splitting a space-joined list of
      space-free words gives the words back. */
  lemma {:induction false} SplitJoin(words: seq<string>)
    requires |words| >= 1
    requires forall i :: 0 <= i < |words| ==> ' ' !in words[i]
    ensures SplitOnSpace(JoinWithSpace(words)) == words
  {
    if |words| == 1 {
    } else {
      var w := words[0];
      var rest := JoinWithSpace(words[1..]);
      var s := w + " " + rest;
      assert ' ' in s by { assert s[|w|] == ' '; }
      var i := IndexOfSpace(s);
      assert s[|w|] == ' ';
      assert i == |w|;
      assert s[..i] == w;
      assert s[i + 1..] == rest;
      SplitJoin(words[1..]);
    }
  }

  /** `word.charAt(0).toUpperCase() + word.slice(1).toLowerCase()`. */
  function CapitalizeWord(w: string): (r: string)
    ensures |r| == |w|
    ensures |w| > 0 ==> r[0] == AsciiUpper(w[0])
    ensures forall i :: 1 <= i < |w| ==> r[i] == AsciiLower(w[i])
  {
    if w == [] then [] else [AsciiUpper(w[0])] + AsciiLowerAll(w[1..])
  }

  /** `.map(capitalize).join('')`. */
  function CapitalizeAndConcat(words: seq<string>): string {
    if |words| == 0 then "" else CapitalizeWord(words[0]) + CapitalizeAndConcat(words[1..])
  }

  /** Step 3 read character by character, an independent reference for the
      split/map/join pipeline: spaces vanish, a character that starts a word
      (at the front or right after a space) is upper-cased, any other is
      lower-cased. */
  function PascalCase(s: string, atWordStart: bool): (r: string)
    ensures |r| <= |s|
    ensures forall i :: 0 <= i < |r| ==> r[i] != ' '
    ensures AllKeyChars(s) ==> forall i :: 0 <= i < |r| ==> IsAsciiAlphanumeric(r[i])
  {
    if s == [] then []
    else if s[0] == ' ' then PascalCase(s[1..], true)
    else [if atWordStart then AsciiUpper(s[0]) else AsciiLower(s[0])] + PascalCase(s[1..], false)
  }

  /** A space-free word followed by the rest of the text: the word contributes
      its case-mapped characters and the state carries over. */
  lemma {:induction false} PascalCaseWord(w: string, tail: string)
    requires ' ' !in w
    requires |w| > 0
    ensures PascalCase(w + tail, true) == CapitalizeWord(w) + PascalCase(tail, false)
  {
    assert (w + tail)[1..] == w[1..] + tail;
    PascalCaseLower(w[1..], tail);
  }

  lemma {:induction false} PascalCaseLower(w: string, tail: string)
    requires ' ' !in w
    ensures PascalCase(w + tail, false) == AsciiLowerAll(w) + PascalCase(tail, false)
  {
    if w == [] {
      assert w + tail == tail;
    } else {
      assert (w + tail)[1..] == w[1..] + tail;
      PascalCaseLower(w[1..], tail);
    }
  }

  /** After a space-free word, a space restarts capitalisation whatever the
      state was. */
  lemma {:induction false} PascalCaseAcrossSpace(w: string, tail: string)
    requires ' ' !in w
    ensures PascalCase(w + " " + tail, true) == CapitalizeWord(w) + PascalCase(tail, true)
  {
    if w == [] {
      assert w + " " + tail == " " + tail;
      assert (" " + tail)[1..] == tail;
    } else {
      PascalCaseWord(w, " " + tail);
      assert w + " " + tail == w + (" " + tail);
      assert (" " + tail)[1..] == tail;
    }
  }

  /** The split/capitalise/join pipeline of step 3 equals the character-wise
      reference. */
  lemma {:induction false} CapitalizeSplitIsPascalCase(s: string)
    ensures CapitalizeAndConcat(SplitOnSpace(s)) == PascalCase(s, true)
    decreases |s|
  {
    if ' ' !in s {
      if s == [] {
      } else {
        PascalCaseWord(s, []);
        assert s + [] == s;
      }
      assert CapitalizeAndConcat([s]) == CapitalizeWord(s) + CapitalizeAndConcat([]);
    } else {
      var i := IndexOfSpace(s);
      var w := s[..i];
      var tail := s[i + 1..];
      assert s == w + " " + tail;
      CapitalizeSplitIsPascalCase(tail);
      PascalCaseAcrossSpace(w, tail);
      var words := SplitOnSpace(s);
      assert words == [w] + SplitOnSpace(tail);
      assert words[1..] == SplitOnSpace(tail);
    }
  }

  /** `toSemanticLabel`: clean, truncate, then PascalCase the words. Its
      properties are stated by `LabelSpec`, so that the many proofs that
      mention keys do not carry them. */
  function ToSemanticLabel(text: string): string {
    CapitalizeAndConcat(SplitOnSpace(Truncate(Clean(text))))
  }

  /** The label is the character-wise PascalCase of the cleaned, truncated
      text: at most 30 characters, all ASCII letters and digits. */
  lemma LabelSpec(text: string)
    ensures ToSemanticLabel(text) == PascalCase(Truncate(Clean(text)), true)
    ensures |ToSemanticLabel(text)| <= MaxLabelLength
    ensures forall i :: 0 <= i < |ToSemanticLabel(text)| ==> IsAsciiAlphanumeric(ToSemanticLabel(text)[i])
  {
    var cleaned := Clean(text);
    var short := Truncate(cleaned);
    assert AllKeyChars(short) by {
      forall i | 0 <= i < |short|
        ensures IsKeyChar(short[i])
      {
        assert short[i] == cleaned[i];
      }
    }
    CapitalizeSplitIsPascalCase(short);
  }

  /** `generate(componentName, text)`: the scope, an underscore, the label.
      Its properties are stated by `GenerateSpec`. */
  function Generate(scope: string, text: string): string {
    scope + "_" + ToSemanticLabel(text)
  }

  /** The shape of `scope + "_" + label` for any short alphanumeric label. */
  lemma PrefixedLabel(scope: string, lbl: string)
    requires |lbl| <= MaxLabelLength
    requires forall i :: 0 <= i < |lbl| ==> IsAsciiAlphanumeric(lbl[i])
    ensures var key := scope + "_" + lbl;
      && |scope| + 1 <= |key| <= |scope| + 1 + MaxLabelLength
      && key[..|scope| + 1] == scope + "_"
      && key[|scope| + 1..] == lbl
      && forall i :: |scope| + 1 <= i < |key| ==> IsAsciiAlphanumeric(key[i])
  {
    var key := scope + "_" + lbl;
    assert key[|scope| + 1..] == lbl;
    assert forall i :: |scope| + 1 <= i < |key| ==> key[i] == lbl[i - |scope| - 1];
  }

  /** Total, with no error path: the key starts with the scope and an
      underscore, and the rest is the label, at most 30 ASCII letters and
      digits. */
  lemma GenerateSpec(scope: string, text: string)
    ensures var key := Generate(scope, text);
      && |scope| + 1 <= |key| <= |scope| + 1 + MaxLabelLength
      && key[..|scope| + 1] == scope + "_"
      && key[|scope| + 1..] == ToSemanticLabel(text)
      && forall i :: |scope| + 1 <= i < |key| ==> IsAsciiAlphanumeric(key[i])
  {
    LabelSpec(text);
    PrefixedLabel(scope, ToSemanticLabel(text));
  }

  /** Even empty (or all-punctuation) text yields a key: the bare scope prefix. */
  lemma EmptyTextKey(scope: string)
    ensures Generate(scope, "") == scope + "_"
  {
    LabelSpec("");
  }

  /** Punctuation is deleted without creating a word boundary, so texts that
      differ only in deleted characters share a key. */
  lemma SameKeyCharsSameKey(scope: string, a: string, b: string)
    requires StripSpecial(a) == StripSpecial(b)
    ensures Generate(scope, a) == Generate(scope, b)
  {
  }

  /** The key function the extractor and the injector both apply to the
      texts of the file at `path`: `generate(componentName, text)` with
      `componentName = path.basename(path, path.extname(path))`. */
  function KeyFor(path: string): string -> string {
    text => Generate(PathName.Scope(path), text)
  }
}
