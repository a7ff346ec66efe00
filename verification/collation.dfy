/** How the database compares text in `nvarchar` columns. The store runs on
    SQL Server with its default collation, which ignores letter case and
    trailing blanks, so a unique index on such a column refuses names that
    differ only in those respects. The model covers ASCII case and trailing
    U+0020 spaces. */
module Collation {
  function LowerAscii(c: char): (l: char)
    ensures !('A' <= l <= 'Z')
    ensures !('A' <= c <= 'Z') ==> l == c
    ensures 'A' <= c <= 'Z' ==> l as int - c as int == 32
  {
    if 'A' <= c <= 'Z' then (c as int + 32) as char else c
  }

  /** The text with its trailing spaces removed, as ANSI padding compares it. */
  function DropTrailingSpaces(s: string): (r: string)
    ensures |r| <= |s| && r == s[..|r|]
    ensures forall k :: |r| <= k < |s| ==> s[k] == ' '
    ensures |r| > 0 ==> r[|r| - 1] != ' '
    decreases |s|
  {
    if |s| > 0 && s[|s| - 1] == ' ' then DropTrailingSpaces(s[..|s| - 1]) else s
  }

  /** The comparison key: two texts are equal under the collation exactly when
      their keys are equal. */
  function Key(s: string): (k: string)
    ensures |k| <= |s|
    ensures forall i :: 0 <= i < |k| ==> !('A' <= k[i] <= 'Z')
    ensures |k| > 0 ==> k[|k| - 1] != ' '
  {
    var t := DropTrailingSpaces(s);
    seq(|t|, i requires 0 <= i < |t| => LowerAscii(t[i]))
  }

  /** Text already in key form: no upper-case ASCII letter and no trailing space. */
  predicate Plain(s: string) {
    (forall i :: 0 <= i < |s| ==> !('A' <= s[i] <= 'Z')) && (|s| > 0 ==> s[|s| - 1] != ' ')
  }

  /** Appending spaces does not change the key. */
  lemma KeyIgnoresTrailingSpaces(s: string, n: nat)
    ensures Key(s + seq(n, _ => ' ')) == Key(s)
  {
    DropAppendedSpaces(s, n);
  }

  lemma {:induction false} DropAppendedSpaces(s: string, n: nat)
    ensures DropTrailingSpaces(s + seq(n, _ => ' ')) == DropTrailingSpaces(s)
    decreases n
  {
    if n > 0 {
      var t := s + seq(n, _ => ' ');
      assert t[|t| - 1] == ' ';
      assert t[..|t| - 1] == s + seq(n - 1, _ => ' ');
      DropAppendedSpaces(s, n - 1);
    } else {
      assert s + seq(n, _ => ' ') == s;
    }
  }

  /** Texts that differ only in ASCII case have the same key. */
  lemma KeyIgnoresAsciiCase(a: string, b: string)
    requires |a| == |b|
    requires forall i :: 0 <= i < |a| ==> LowerAscii(a[i]) == LowerAscii(b[i])
    ensures Key(a) == Key(b)
  {
    SameTrailingSpaces(a, b);
  }

  lemma {:induction false} SameTrailingSpaces(a: string, b: string)
    requires |a| == |b|
    requires forall i :: 0 <= i < |a| ==> LowerAscii(a[i]) == LowerAscii(b[i])
    ensures |DropTrailingSpaces(a)| == |DropTrailingSpaces(b)|
    decreases |a|
  {
    if |a| > 0 {
      assert a[|a| - 1] == ' ' <==> b[|b| - 1] == ' ';
      if a[|a| - 1] == ' ' {
        SameTrailingSpaces(a[..|a| - 1], b[..|b| - 1]);
      }
    }
  }

  /** A key is its own key, and on plain text the key is the text itself, so
      plain texts collide only when they are equal. */
  lemma KeyOfPlain(s: string)
    requires Plain(s)
    ensures Key(s) == s
  {
    assert DropTrailingSpaces(s) == s;
  }

  lemma PlainCollideIff(a: string, b: string)
    requires Plain(a) && Plain(b)
    ensures Key(a) == Key(b) <==> a == b
  {
    KeyOfPlain(a);
    KeyOfPlain(b);
  }

  /** "Alpha", "alpha" and "Alpha " are one name to the database. */
  lemma CaseAndPaddingVariantsCollide()
    ensures Key("Alpha") == Key("alpha") == Key("Alpha ")
  {
    KeyIgnoresAsciiCase("Alpha", "alpha");
    assert "Alpha " == "Alpha" + seq(1, _ => ' ');
    KeyIgnoresTrailingSpaces("Alpha", 1);
  }
}
