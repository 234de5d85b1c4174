/** String arithmetic behind one finding: the line number of a match offset,
    the context window around a match, the escaping that keeps a snippet on a
    single line, and the case folding applied to file extensions. */
module Text {

  /** Characters of context kept on each side of a match. */
  const Context: nat := 60

  /** Number of '\n' characters in `s` (Python's `s.count("\n")`). */
  function CountNewlines(s: string): (n: nat)
    ensures n <= |s|
  {
    if s == [] then 0
    else
      (if s[0] == '\n' then 1 else 0) + CountNewlines(s[1..])
  }

  lemma {:induction false} CountNewlinesConcat(a: string, b: string)
    ensures CountNewlines(a + b) == CountNewlines(a) + CountNewlines(b)
  {
    if a == [] {
      assert a + b == b;
    } else {
      assert (a + b)[0] == a[0];
      assert (a + b)[1..] == a[1..] + b;
      CountNewlinesConcat(a[1..], b);
    }
  }

  lemma CountNewlinesOfPlainText(s: string)
    requires '\n' !in s
    ensures CountNewlines(s) == 0
  {
    if s != [] {
      CountNewlinesOfPlainText(s[1..]);
    }
  }

  /** The 1-based line holding offset `start`: one more than the number of
      line breaks strictly before it (Python's `text.count("\n", 0, start) + 1`). */
  function LineNumber(text: string, start: nat): nat
    requires start <= |text|
  {
    CountNewlines(text[..start]) + 1
  }

  /** A line number lies between the first and the last line of the text. */
  lemma LineNumberBounds(text: string, start: nat)
    requires start <= |text|
    ensures 1 <= LineNumber(text, start) <= CountNewlines(text) + 1
  {
    assert text == text[..start] + text[start..];
    CountNewlinesConcat(text[..start], text[start..]);
  }

  /** Moving from offset `a` to a later offset `b` advances the line number by
      exactly the line breaks passed over; in particular it never goes back. */
  lemma LineNumberAdvance(text: string, a: nat, b: nat)
    requires a <= b <= |text|
    ensures LineNumber(text, b) == LineNumber(text, a) + CountNewlines(text[a..b])
    ensures LineNumber(text, a) <= LineNumber(text, b)
  {
    assert text[..b] == text[..a] + text[a..b];
    CountNewlinesConcat(text[..a], text[a..b]);
  }

  /** A slice `[from, to)` of a text. */
  datatype Window = Window(from: nat, to: nat)

  /** The context window of a match `[start, end)` in a text of length `len`:
      up to `Context` characters on each side, clipped to the text. */
  function SnippetWindow(len: nat, start: nat, end: nat): (w: Window)
    requires start <= end <= len
    ensures w.from <= start && end <= w.to <= len
    ensures start - w.from <= Context && w.to - end <= Context
    ensures w.from == 0 || start - w.from == Context
    ensures w.to == len || w.to - end == Context
  {
    var from := if start - Context < 0 then 0 else start - Context;
    var to := if len < end + Context then len else end + Context;
    Window(from, to)
  }

  /** The two-character escape that replaces a line break in a snippet. */
  const EscapedNewline: string := "\\n"

  /** `s` with every '\n' replaced by a backslash and an 'n'
      (Python's `s.replace("\n", "\\n")`). */
  function Escape(s: string): string
  {
    if s == [] then []
    else (if s[0] == '\n' then EscapedNewline else [s[0]]) + Escape(s[1..])
  }

  /** An escaped text holds no line break, and each line break of the
      original costs one more character. */
  lemma {:induction false} EscapeShape(s: string)
    ensures '\n' !in Escape(s)
    ensures |Escape(s)| == |s| + CountNewlines(s)
  {
    if s != [] {
      EscapeShape(s[1..]);
    }
  }

  /** Escaping works piece by piece. */
  lemma {:induction false} EscapeConcat(a: string, b: string)
    ensures Escape(a + b) == Escape(a) + Escape(b)
  {
    if a == [] {
      assert a + b == b;
    } else {
      assert (a + b)[0] == a[0];
      assert (a + b)[1..] == a[1..] + b;
      EscapeConcat(a[1..], b);
    }
  }

  /** A text without line breaks is left as it is. */
  lemma {:induction false} EscapeKeepsPlainText(s: string)
    requires '\n' !in s
    ensures Escape(s) == s
  {
    if s != [] {
      assert s[0] != '\n';
      EscapeKeepsPlainText(s[1..]);
    }
  }

  /** The escape is lossy: a line break and a literal backslash followed by an
      'n' give the same snippet text. */
  lemma EscapeIsNotInjective()
    ensures "\n" != EscapedNewline && Escape("\n") == Escape(EscapedNewline)
  {
    assert EscapedNewline[0] != '\n' && EscapedNewline[1] != '\n';
    EscapeKeepsPlainText(EscapedNewline);
  }

  /** `a` occurs in `b` starting at offset `k`. */
  predicate OccursAt(a: string, b: string, k: nat) {
    k + |a| <= |b| && b[k..k + |a|] == a
  }

  /** The escaped text `[from, to)` holds the escaped text `[start, end)`
      verbatim, right after the escaped text `[from, start)`. */
  lemma EscapedSliceOccurs(text: string, from: nat, start: nat, end: nat, to: nat)
    requires from <= start <= end <= to <= |text|
    ensures OccursAt(Escape(text[start..end]), Escape(text[from..to]), |Escape(text[from..start])|)
  {
    var pre, mid, post := text[from..start], text[start..end], text[end..to];
    assert text[from..to] == pre + mid + post;
    EscapeConcat(pre + mid, post);
    EscapeConcat(pre, mid);
    var r := Escape(text[from..to]);
    assert r == Escape(pre) + Escape(mid) + Escape(post);
    assert r[|Escape(pre)|..|Escape(pre)| + |Escape(mid)|] == Escape(mid);
  }

  /** ASCII lower-casing of one character. */
  function LowerChar(c: char): char {
    if 'A' <= c <= 'Z' then (c as int + 32) as char else c
  }

  /** ASCII lower-casing of a string (Python's str.lower on ASCII text). */
  function Lower(s: string): (r: string)
    ensures |r| == |s|
  {
    if s == [] then [] else [LowerChar(s[0])] + Lower(s[1..])
  }

  /** Lower-casing works character by character. */
  lemma {:induction false} LowerAt(s: string, i: nat)
    requires i < |s|
    ensures Lower(s)[i] == LowerChar(s[i])
  {
    if i > 0 {
      LowerAt(s[1..], i - 1);
    }
  }

  /** Lower-casing leaves no upper-case ASCII letter and changes nothing the
      second time. */
  lemma {:induction false} LowerIsIdempotent(s: string)
    ensures forall i :: 0 <= i < |s| ==> !('A' <= Lower(s)[i] <= 'Z')
    ensures Lower(Lower(s)) == Lower(s)
  {
    if s != [] {
      LowerIsIdempotent(s[1..]);
      assert Lower(s)[1..] == Lower(s[1..]);
      forall i | 0 <= i < |s|
        ensures !('A' <= Lower(s)[i] <= 'Z')
      {
        LowerAt(s, i);
      }
    }
  }
}
