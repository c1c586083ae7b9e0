/** `sanitize_key`: turns an arbitrary object key into one Firebase accepts,
    made only of ASCII letters, digits and `_`, and never empty. */
module KeySanitizer {
  import opened PyStr

  /** The character class `[A-Za-z0-9_]` of the regular expression. */
  predicate IsKeyChar(c: char) {
    ('A' <= c <= 'Z') || ('a' <= c <= 'z') || ('0' <= c <= '9') || c == '_'
  }

  /** A key `sanitize_key` can return: nonempty, and all of `[A-Za-z0-9_]`. */
  predicate IsSafeKey(k: string) {
    |k| > 0 && forall i :: 0 <= i < |k| ==> IsKeyChar(k[i])
  }

  /** The key substituted when nothing of the original survives. */
  const UnknownKey: string := "UNKNOWN_KEY"

  /** `re.sub(r'[^A-Za-z0-9_]', '', s)`: every character outside the class is deleted. */
  function KeepKeyChars(s: string): string {
    if s == [] then []
    else (if IsKeyChar(s[0]) then [s[0]] else []) + KeepKeyChars(s[1..])
  }

  lemma {:induction false} KeepKeyCharsSpec(s: string)
    ensures |KeepKeyChars(s)| <= |s|
    ensures forall i :: 0 <= i < |KeepKeyChars(s)| ==> IsKeyChar(KeepKeyChars(s)[i])
    ensures (forall i :: 0 <= i < |s| ==> IsKeyChar(s[i])) ==> KeepKeyChars(s) == s
  {
    if s != [] {
      KeepKeyCharsSpec(s[1..]);
      assert s == [s[0]] + s[1..];
    }
  }

  /** On one character, the substitution keeps it exactly when it is in `[A-Za-z0-9_]`. */
  lemma KeepKeyCharsOne(c: char)
    ensures KeepKeyChars([c]) == if IsKeyChar(c) then [c] else []
  {
    assert [c][1..] == [];
  }

  /** The chain of replacements applied to the stripped key, in source order:
      delete `"`, map `/`, space and `\` to `_`, then delete everything outside
      `[A-Za-z0-9_]`. */
  function Scrub(k: string): string {
    var k := RemoveChar(k, '"');
    var k := ReplaceChar(k, '/', '_');
    var k := ReplaceChar(k, ' ', '_');
    var k := ReplaceChar(k, '\\', '_');
    KeepKeyChars(k)
  }

  lemma KeepKeyCharsOfScrub(k: string)
    ensures forall i :: 0 <= i < |Scrub(k)| ==> IsKeyChar(Scrub(k)[i])
  {
    var k1 := RemoveChar(k, '"');
    var k2 := ReplaceChar(k1, '/', '_');
    var k3 := ReplaceChar(k2, ' ', '_');
    var k4 := ReplaceChar(k3, '\\', '_');
    KeepKeyCharsSpec(k4);
  }

  /** `sanitize_key(key)`. */
  function SanitizeKey(key: string): (r: string)
    ensures IsSafeKey(r)
  {
    var k := Scrub(Strip(key));
    KeepKeyCharsOfScrub(Strip(key));
    if k == "" then
      assert forall i :: 0 <= i < |UnknownKey| ==> IsKeyChar(UnknownKey[i]);
      UnknownKey
    else k
  }

  // ---------------------------------------------------------------------
  // An independent, character-by-character description of the cleaning

  /** A character that leaves something behind in the cleaned key. */
  predicate Survives(c: char) {
    c == '/' || c == ' ' || c == '\\' || IsKeyChar(c)
  }

  /** What one character of the stripped key becomes: `/`, space and `\` become
      one `_`, letters, digits and `_` stay, everything else disappears. */
  function CleanChar(c: char): string {
    if c == '/' || c == ' ' || c == '\\' then "_"
    else if IsKeyChar(c) then [c]
    else []
  }

  /** Each character cleaned on its own, results kept in order. */
  function Clean(s: string): string {
    if s == [] then [] else CleanChar(s[0]) + Clean(s[1..])
  }

  lemma ReplaceCharConcat(a: string, b: string, from: char, to: char)
    ensures ReplaceChar(a + b, from, to) == ReplaceChar(a, from, to) + ReplaceChar(b, from, to)
  {
    ReplaceCharSpec(a + b, from, to);
    ReplaceCharSpec(a, from, to);
    ReplaceCharSpec(b, from, to);
    assert forall i :: 0 <= i < |a + b| ==> (a + b)[i] == if i < |a| then a[i] else b[i - |a|];
  }

  /** The substitution works on the two halves of a string independently, so
      the characters it keeps stay in their order, each copy kept. */
  lemma {:induction false} KeepKeyCharsConcat(a: string, b: string)
    ensures KeepKeyChars(a + b) == KeepKeyChars(a) + KeepKeyChars(b)
  {
    if a == [] {
      assert a + b == b;
    } else {
      var head := if IsKeyChar(a[0]) then [a[0]] else [];
      assert (a + b)[0] == a[0] && (a + b)[1..] == a[1..] + b;
      assert KeepKeyChars(a + b) == head + KeepKeyChars(a[1..] + b);
      KeepKeyCharsConcat(a[1..], b);
      assert KeepKeyChars(a) == head + KeepKeyChars(a[1..]);
      assert head + (KeepKeyChars(a[1..]) + KeepKeyChars(b)) == (head + KeepKeyChars(a[1..])) + KeepKeyChars(b);
    }
  }

  /** The replacement chain of the source and the character-by-character
      description agree on every string. */
  lemma {:induction false} ScrubIsClean(s: string)
    ensures Scrub(s) == Clean(s)
  {
    if s == [] {
    } else {
      var c, t := s[0], s[1..];
      var x := if c == '"' then [] else [c];
      assert RemoveChar(s, '"') == x + RemoveChar(t, '"');
      var y := RemoveChar(t, '"');
      ReplaceCharConcat(x, y, '/', '_');
      var x1, y1 := ReplaceChar(x, '/', '_'), ReplaceChar(y, '/', '_');
      ReplaceCharConcat(x1, y1, ' ', '_');
      var x2, y2 := ReplaceChar(x1, ' ', '_'), ReplaceChar(y1, ' ', '_');
      ReplaceCharConcat(x2, y2, '\\', '_');
      var x3, y3 := ReplaceChar(x2, '\\', '_'), ReplaceChar(y2, '\\', '_');
      KeepKeyCharsConcat(x3, y3);
      ScrubIsClean(t);
      assert KeepKeyChars(x3) == CleanChar(c);
    }
  }

  /** The cleaned string is empty exactly when no character survives. */
  lemma {:induction false} CleanEmptyIff(s: string)
    ensures Clean(s) == [] <==> forall i :: 0 <= i < |s| ==> !Survives(s[i])
  {
    if s != [] {
      CleanEmptyIff(s[1..]);
      assert forall i :: 1 <= i < |s| ==> s[i] == s[1..][i - 1];
    }
  }

  /** A string made only of `[A-Za-z0-9_]` is its own cleaning. */
  lemma {:induction false} CleanKeepsKeyChars(s: string)
    requires forall i :: 0 <= i < |s| ==> IsKeyChar(s[i])
    ensures Clean(s) == s
  {
    if s != [] {
      CleanKeepsKeyChars(s[1..]);
      assert s == [s[0]] + s[1..];
    }
  }

  /** `sanitize_key` is: strip, clean each character, and fall back to
      `UNKNOWN_KEY` on an empty result. */
  lemma SanitizeKeyByCharacter(key: string)
    ensures SanitizeKey(key) == if Clean(Strip(key)) == [] then UnknownKey else Clean(Strip(key))
  {
    ScrubIsClean(Strip(key));
  }

  /** A key in which, once stripped, no letter, digit, `_`, space, `/` or `\`
      remains becomes exactly `UNKNOWN_KEY`; otherwise the cleaned key is returned. */
  lemma SanitizeKeyUnknown(key: string)
    ensures (forall i :: 0 <= i < |Strip(key)| ==> !Survives(Strip(key)[i])) ==> SanitizeKey(key) == UnknownKey
    ensures (exists i :: 0 <= i < |Strip(key)| && Survives(Strip(key)[i])) ==>
      SanitizeKey(key) == Clean(Strip(key)) != []
  {
    SanitizeKeyByCharacter(key);
    CleanEmptyIff(Strip(key));
  }

  /** Surrounding whitespace is dropped before anything is replaced, so outer
      spaces never turn into `_`; the key is decided by what lies between them. */
  lemma SanitizeKeyIgnoresMargins(pre: string, core: string, post: string)
    requires forall i :: 0 <= i < |pre| ==> IsWhitespace(pre[i])
    requires forall i :: 0 <= i < |post| ==> IsWhitespace(post[i])
    requires core == [] || (!IsWhitespace(core[0]) && !IsWhitespace(core[|core| - 1]))
    ensures SanitizeKey(pre + core + post) == if Clean(core) == [] then UnknownKey else Clean(core)
  {
    StripRemovesOnlyMargins(pre, core, post);
    SanitizeKeyByCharacter(pre + core + post);
  }

  /** A safe key has no surrounding whitespace to strip. */
  lemma SafeKeyIsStripped(key: string)
    requires IsSafeKey(key)
    ensures Strip(key) == key
  {
    assert !IsWhitespace(key[0]) && !IsWhitespace(key[|key| - 1]);
    assert TrimStart(key) == key;
  }

  /** A nonempty key made only of `[A-Za-z0-9_]` is returned unchanged. */
  lemma SafeKeyUnchanged(key: string)
    requires IsSafeKey(key)
    ensures SanitizeKey(key) == key
  {
    CleanKeepsKeyChars(key);
    SafeKeyIsStripped(key);
    SanitizeKeyByCharacter(key);
  }

  /** Sanitising a sanitised key changes nothing. */
  lemma SanitizeKeyIdempotent(key: string)
    ensures SanitizeKey(SanitizeKey(key)) == SanitizeKey(key)
  {
    SafeKeyUnchanged(SanitizeKey(key));
  }
}
