/** String helpers the bot relies on: Python's `str.lower`, the substring test
    behind `word in text`, and `str.replace('-', ' ')`. */
module Text {

  /** Lower-case mapping of one character, as Python's `str.lower` does it for
      ASCII letters and for the Cyrillic capitals U+0400..U+042F; every other
      character is left unchanged. */
  function LowerChar(c: char): char
  {
    if 'A' <= c <= 'Z' then (c as int + 32) as char
    else if '\U{0410}' <= c <= '\U{042F}' then (c as int + 32) as char
    else if '\U{0400}' <= c <= '\U{040F}' then (c as int + 80) as char
    else c
  }

  predicate IsUpper(c: char)
  {
    'A' <= c <= 'Z' || '\U{0400}' <= c <= '\U{042F}'
  }

  /** `s.lower()`, character by character. */
  function Lower(s: string): (r: string)
    ensures |r| == |s|
    ensures forall i :: 0 <= i < |s| && !IsUpper(s[i]) ==> r[i] == s[i]
    ensures forall i :: 0 <= i < |s| ==> !IsUpper(r[i])
  {
    seq(|s|, i requires 0 <= i < |s| => LowerChar(s[i]))
  }

  /** Lower-casing removes every capital the mapping knows about. */
  lemma LowerHasNoCapitals(s: string)
    ensures forall i :: 0 <= i < |s| ==> !IsUpper(Lower(s)[i])
  {
  }

  /** Lower-casing is idempotent. */
  lemma LowerIdempotent(s: string)
    ensures Lower(Lower(s)) == Lower(s)
  {
  }

  /** Lower-casing acts per character, so it distributes over concatenation. */
  lemma LowerAppend(a: string, b: string)
    ensures Lower(a + b) == Lower(a) + Lower(b)
  {
  }

  /** `w` occurs in `s` as a contiguous block: the meaning of Python's `w in s`. */
  ghost predicate Occurs(w: string, s: string)
  {
    exists i :: OccursAt(w, s, i)
  }

  /** `w` occurs in `s` starting at position `i`. */
  predicate OccursAt(w: string, s: string, i: int)
  {
    0 <= i && i + |w| <= |s| && s[i..i + |w|] == w
  }

  /** A left-to-right scan for `w` inside `s`. */
  function Contains(w: string, s: string): bool
    decreases |s|
  {
    if |s| < |w| then false
    else if w <= s then true
    else Contains(w, s[1..])
  }

  lemma {:induction false} ContainsIffOccurs(w: string, s: string)
    ensures Contains(w, s) <==> Occurs(w, s)
    decreases |s|
  {
    if |s| < |w| {
    } else if w <= s {
      assert OccursAt(w, s, 0);
    } else {
      ContainsIffOccurs(w, s[1..]);
      OccursShift(w, s);
    }
  }

  /** When `w` is not a prefix of `s`, it occurs in `s` exactly when it
      occurs after the first character. */
  lemma OccursShift(w: string, s: string)
    requires |s| >= |w| && !(w <= s)
    ensures Occurs(w, s) <==> Occurs(w, s[1..])
  {
    if Occurs(w, s[1..]) {
      var i :| OccursAt(w, s[1..], i);
      assert OccursAt(w, s, i + 1);
    }
    if Occurs(w, s) {
      var i :| OccursAt(w, s, i);
      assert i != 0;
      assert OccursAt(w, s[1..], i - 1);
    }
  }

  /** An occurrence survives any text added before or after it. */
  lemma OccursInExtension(w: string, s: string, pre: string, post: string)
    requires Occurs(w, s)
    ensures Occurs(w, pre + s + post)
  {
    var i :| OccursAt(w, s, i);
    var t := pre + s + post;
    assert t[|pre| + i..|pre| + i + |w|] == s[i..i + |w|];
    assert OccursAt(w, t, |pre| + i);
  }

  /** `s.replace(from, to)` for a single character. */
  function ReplaceChar(s: string, from: char, to: char): (r: string)
    requires from != to
    ensures |r| == |s|
    ensures from !in r
    ensures forall i :: 0 <= i < |s| && s[i] != from ==> r[i] == s[i]
    ensures forall i :: 0 <= i < |s| && s[i] == from ==> r[i] == to
  {
    seq(|s|, i requires 0 <= i < |s| => if s[i] == from then to else s[i])
  }
}
