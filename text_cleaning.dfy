/**
  Text normalisation applied to every combined feature: the text is
  lower-cased and then every character outside the regular-expression class
  `[a-zA-Z\s]` is deleted.
 */
module TextCleaning {
  import opened Sequences

  /** Whitespace as `\s` matches it in a Python str pattern (str.isspace()). */
  predicate IsSpace(c: char) {
    || '\t' <= c <= '\r'
    || '\U{1C}' <= c <= ' '
    || c == '\U{85}' || c == '\U{A0}' || c == '\U{1680}'
    || '\U{2000}' <= c <= '\U{200A}'
    || c == '\U{2028}' || c == '\U{2029}' || c == '\U{202F}'
    || c == '\U{205F}' || c == '\U{3000}'
  }

  predicate IsUpper(c: char) { 'A' <= c <= 'Z' }

  predicate IsLower(c: char) { 'a' <= c <= 'z' }

  /** The character class `[a-zA-Z\s]` of the cleaning pattern. */
  predicate Allowed(c: char) { IsUpper(c) || IsLower(c) || IsSpace(c) }

  /** What every cleaned text consists of. */
  predicate IsClean(s: string) {
    forall i :: 0 <= i < |s| ==> IsLower(s[i]) || IsSpace(s[i])
  }

  const KELVIN_SIGN: char := '\U{212A}'
  const CAPITAL_I_WITH_DOT: char := '\U{130}'
  const COMBINING_DOT_ABOVE: char := '\U{307}'

  /**
    Python's str.lower() on one character, exact for every character whose
    lower-case form contains an ASCII letter or whitespace: A-Z map to a-z,
    the Kelvin sign to 'k', and capital I with dot above to 'i' followed by a
    combining dot. Any other character is returned unchanged; its real
    lower-case form, like the character itself, is outside `[a-zA-Z\s]`.
   */
  function LowerChar(c: char): (r: string)
    ensures forall i :: 0 <= i < |r| ==> !IsUpper(r[i])
    ensures IsLower(c) || IsSpace(c) ==> r == [c]
  {
    if IsUpper(c) then [(c as int + 32) as char]
    else if c == KELVIN_SIGN then "k"
    else if c == CAPITAL_I_WITH_DOT then ['i', COMBINING_DOT_ABOVE]
    else [c]
  }

  /** str.lower() */
  function Lower(s: string): (r: string)
    ensures forall i :: 0 <= i < |r| ==> !IsUpper(r[i])
  {
    if s == [] then [] else LowerChar(s[0]) + Lower(s[1..])
  }

  /** re.sub(r'[^a-zA-Z\s]', '', t): delete every character outside the class. */
  function RemoveDisallowed(t: string): (r: string)
    ensures forall i :: 0 <= i < |r| ==> Allowed(r[i])
    ensures forall c :: multiset(r)[c] == if Allowed(c) then multiset(t)[c] else 0
    ensures IsSubsequence(r, t)
  {
    if t == [] then []
    else
      var rest := RemoveDisallowed(t[1..]);
      assert t == [t[0]] + t[1..];
      if Allowed(t[0]) then
        [t[0]] + rest
      else
        SubsequenceOfTail(rest, t);
        rest
  }

  /**
    `_clean_text`: lower-case, then keep only letters and whitespace. The
    result keeps the order of the lower-cased text, every letter and
    whitespace character of it occurs as often as there, and nothing else
    occurs.
   */
  function CleanText(s: string): (r: string)
    ensures IsClean(r)
    ensures IsSubsequence(r, Lower(s))
    ensures forall c :: multiset(r)[c] == if IsLower(c) || IsSpace(c) then multiset(Lower(s))[c] else 0
  {
    RemoveDisallowed(Lower(s))
  }

  lemma {:induction false} LowerOfClean(s: string)
    requires IsClean(s)
    ensures Lower(s) == s
  {
    if s != [] {
      LowerOfClean(s[1..]);
    }
  }

  lemma {:induction false} RemoveDisallowedOfAllowed(t: string)
    requires forall i :: 0 <= i < |t| ==> Allowed(t[i])
    ensures RemoveDisallowed(t) == t
  {
    if t != [] {
      RemoveDisallowedOfAllowed(t[1..]);
    }
  }

  /** Cleaning an already cleaned text changes nothing. */
  lemma CleanTextIdempotent(s: string)
    ensures CleanText(CleanText(s)) == CleanText(s)
  {
    var r := CleanText(s);
    LowerOfClean(r);
    RemoveDisallowedOfAllowed(r);
  }

  /** A clean text is its own cleaning. */
  lemma CleanTextOfClean(s: string)
    requires IsClean(s)
    ensures CleanText(s) == s
  {
    LowerOfClean(s);
    RemoveDisallowedOfAllowed(s);
  }

  lemma {:induction false} LowerAppend(a: string, b: string)
    ensures Lower(a + b) == Lower(a) + Lower(b)
  {
    if a == [] {
      assert a + b == b;
    } else {
      assert (a + b)[1..] == a[1..] + b;
      LowerAppend(a[1..], b);
    }
  }

  lemma {:induction false} RemoveDisallowedAppend(a: string, b: string)
    ensures RemoveDisallowed(a + b) == RemoveDisallowed(a) + RemoveDisallowed(b)
  {
    if a == [] {
      assert a + b == b;
    } else {
      assert (a + b)[1..] == a[1..] + b;
      RemoveDisallowedAppend(a[1..], b);
    }
  }

  /** Cleaning works character by character, so it distributes over concatenation. */
  lemma CleanTextAppend(a: string, b: string)
    ensures CleanText(a + b) == CleanText(a) + CleanText(b)
  {
    LowerAppend(a, b);
    RemoveDisallowedAppend(Lower(a), Lower(b));
  }

  /** One character cleans to at most one character. */
  lemma CleanCharLength(c: char)
    ensures |RemoveDisallowed(LowerChar(c))| <= 1
  {
    if c == CAPITAL_I_WITH_DOT {
      assert LowerChar(c) == ['i'] + [COMBINING_DOT_ABOVE];
      RemoveDisallowedAppend(['i'], [COMBINING_DOT_ABOVE]);
      assert !Allowed(COMBINING_DOT_ABOVE);
    } else {
      assert |LowerChar(c)| == 1;
    }
  }

  /** Every cleaned text is at most as long as the original. */
  lemma {:induction false} CleanTextLength(s: string)
    ensures |CleanText(s)| <= |s|
  {
    if s != [] {
      CleanTextLength(s[1..]);
      RemoveDisallowedAppend(LowerChar(s[0]), Lower(s[1..]));
      CleanCharLength(s[0]);
    }
  }
}
