/** The few .NET string operations both programs rely on, over Dafny strings. */
module Text {

  /** ASCII case folding of one character (String.ToLower restricted to ASCII). */
  function LowerChar(c: char): char
  {
    if 'A' <= c <= 'Z' then (c as int + 32) as char else c
  }

  /** String.ToLower, restricted to ASCII letters. */
  function ToLower(s: string): string
  {
    seq(|s|, i requires 0 <= i < |s| => LowerChar(s[i]))
  }

  /** String.Replace with a one-character old value: every occurrence of c becomes replacement. */
  function ReplaceChar(s: string, c: char, replacement: string): string
    decreases |s|
  {
    if s == [] then [] else (if s[0] == c then replacement else [s[0]]) + ReplaceChar(s[1..], c, replacement)
  }

  /** n backslashes. */
  function Backslashes(n: nat): string
  {
    seq(n, _ => '\\')
  }

  /** Replace works character by character, so it distributes over concatenation. */
  lemma {:induction false} ReplaceCharAppend(a: string, b: string, c: char, replacement: string)
    ensures ReplaceChar(a + b, c, replacement) == ReplaceChar(a, c, replacement) + ReplaceChar(b, c, replacement)
  {
    if a == [] {
      assert a + b == b;
    } else {
      assert (a + b)[1..] == a[1..] + b;
      ReplaceCharAppend(a[1..], b, c, replacement);
    }
  }

  /** Replacing a character that does not occur changes nothing. */
  lemma {:induction false} ReplaceCharAbsent(s: string, c: char, replacement: string)
    requires forall i :: 0 <= i < |s| ==> s[i] != c
    ensures ReplaceChar(s, c, replacement) == s
  {
    if s != [] {
      ReplaceCharAbsent(s[1..], c, replacement);
    }
  }
}
