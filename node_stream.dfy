/**
 * The flat node stream that toTokenString reads, and the string it renders.
 * The stream itself is built by the runtime's tree node stream from the
 * tree, which is not part of this model: here it is a given sequence of
 * entries, each the type and the text of one node.
 */
module NodeStream {
  import opened Tokens

  /** One node of the stream as toTokenString sees it. */
  datatype Entry = Entry(ttype: int, text: string)

  /** The look-ahead LT(1) at position `p`: the entry there, or an EOF node past the end. */
  function LookAhead(s: seq<Entry>, p: nat): Entry
  {
    if p < |s| then s[p] else Entry(EOF, "<EOF>")
  }

  /**
   * What is left to render from position `p`: nothing when the look-ahead is
   * an EOF node, else a space, that node's text and the rest.
   */
  lemma RenderFrom(s: seq<Entry>, p: nat)
    requires p <= |s|
    ensures LookAhead(s, p).ttype == EOF ==> Render(s[p..]) == ""
    ensures LookAhead(s, p).ttype != EOF ==>
      p < |s| && Render(s[p..]) == " " + s[p].text + Render(s[p + 1..])
  {
  }

  /** Appending a space and a text to the buffer before the rest. */
  lemma RenderAppend(buf: string, text: string, rest: string)
    ensures buf + " " + text + rest == buf + (" " + text + rest)
  {
  }

  /** No entry of `s` is an EOF node. */
  predicate NoEof(s: seq<Entry>)
  {
    forall i :: 0 <= i < |s| ==> s[i].ttype != EOF
  }

  /** A space and the text of each entry, up to the first EOF node. */
  function Render(s: seq<Entry>): string
  {
    if s == [] || s[0].ttype == EOF then "" else " " + s[0].text + Render(s[1..])
  }

  /** The texts of the entries before the first EOF node, in order. */
  function TextsBeforeEof(s: seq<Entry>): (r: seq<string>)
    ensures |r| <= |s|
    ensures forall i :: 0 <= i < |r| ==> s[i].ttype != EOF && r[i] == s[i].text
    ensures |r| < |s| ==> s[|r|].ttype == EOF
  {
    if s == [] || s[0].ttype == EOF then [] else [s[0].text] + TextsBeforeEof(s[1..])
  }

  /** Each text preceded by one space, all concatenated. */
  function Spaced(texts: seq<string>): string
  {
    if texts == [] then "" else " " + texts[0] + Spaced(texts[1..])
  }

  /** The rendered string is the texts before the first EOF, each preceded by a space. */
  lemma {:induction false} RenderIsSpacedTexts(s: seq<Entry>)
    ensures Render(s) == Spaced(TextsBeforeEof(s))
    decreases |s|
  {
    if s != [] && s[0].ttype != EOF {
      RenderIsSpacedTexts(s[1..]);
      var t := TextsBeforeEof(s);
      assert t[0] == s[0].text && t[1..] == TextsBeforeEof(s[1..]);
    }
  }

  /** Rendering a stream without EOF and then more is rendering each part. */
  lemma {:induction false} RenderConcat(A: seq<Entry>, B: seq<Entry>)
    requires NoEof(A)
    ensures Render(A + B) == Render(A) + Render(B)
    decreases |A|
  {
    if A == [] {
      assert A + B == B;
    } else {
      assert (A + B)[0] == A[0] && (A + B)[1..] == A[1..] + B;
      RenderConcat(A[1..], B);
    }
  }

  /** Nothing after the first EOF node reaches the string. */
  lemma RenderStopsAtEof(A: seq<Entry>, e: Entry, B: seq<Entry>)
    requires NoEof(A) && e.ttype == EOF
    ensures Render(A + [e] + B) == Render(A)
  {
    RenderConcat(A, [e] + B);
    assert A + [e] + B == A + ([e] + B);
  }

  /** Each entry before the first EOF adds its text and exactly one space. */
  lemma {:induction false} RenderLength(s: seq<Entry>)
    ensures |Render(s)| == |TextsBeforeEof(s)| + TextLength(TextsBeforeEof(s))
    decreases |s|
  {
    if s != [] && s[0].ttype != EOF {
      RenderLength(s[1..]);
      var t := TextsBeforeEof(s);
      assert t[0] == s[0].text && t[1..] == TextsBeforeEof(s[1..]);
    }
  }

  /** The total length of `texts`. */
  function TextLength(texts: seq<string>): nat
  {
    if texts == [] then 0 else |texts[0]| + TextLength(texts[1..])
  }
}
