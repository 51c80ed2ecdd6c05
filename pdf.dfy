/**
 * The PDF the report pages export, reduced to what they decide: which text is drawn at which
 * position. Every text is drawn at x = 10, and rows of a section lie 8 units apart.
 */
module Pdf {
  import Seqs

  /** `doc.text(text, x, y)`. */
  datatype Draw = Draw(text: string, x: int, y: int)

  /** The rows of one section: text `i` at y = `top` + 8·i. */
  function Rows(texts: seq<string>, top: int): (r: seq<Draw>)
    ensures |r| == |texts|
    ensures forall i :: 0 <= i < |texts| ==> r[i] == Draw(texts[i], 10, top + 8 * i)
  {
    seq(|texts|, i requires 0 <= i < |texts| => Draw(texts[i], 10, top + 8 * i))
  }

  /** A section: its heading at `y`, and its rows from 8 below the heading. */
  function Section(heading: string, y: int, texts: seq<string>): seq<Draw>
  {
    [Draw(heading, 10, y)] + Rows(texts, y + 8)
  }

  /** Each draw lies strictly below the one before it. */
  predicate Descending(doc: seq<Draw>)
  {
    |doc| <= 1 || (doc[0].y < doc[1].y && Descending(doc[1..]))
  }

  /** The last draw, if any, lies above the line `y`. */
  predicate Above(doc: seq<Draw>, y: int)
  {
    doc == [] || doc[|doc| - 1].y < y
  }

  /**
   * `items.forEach(x => { doc.text(text(x), 10, y); y += 8; })`: the rows drawn from `y` down,
   * and `y` left 8 below the last of them.
   */
  method DrawEach<T>(doc: seq<Draw>, y: int, items: seq<T>, text: T -> string) returns (doc': seq<Draw>, y': int)
    ensures doc' == doc + Rows(Seqs.Map(items, text), y)
    ensures y' == y + 8 * |items|
  {
    doc', y' := doc, y;
    ghost var texts := Seqs.Map(items, text);
    var i := 0;
    while i < |items|
      invariant 0 <= i <= |items|
      invariant y' == y + 8 * i
      invariant doc' == doc + Rows(texts[..i], y)
    {
      var t := text(items[i]);
      DrawStep(doc, texts, i, y, doc', t, y');
      doc' := doc' + [Draw(t, 10, y')];
      y' := y' + 8;
      i := i + 1;
    }
    assert texts[..|items|] == texts;
  }

  // ---- Properties ----

  /** One loop step after a fixed start: the rows drawn up to `i`, and row `i`. */
  lemma DrawStep(start: seq<Draw>, texts: seq<string>, i: int, top: int, doc: seq<Draw>, t: string, y: int)
    requires 0 <= i < |texts| && doc == start + Rows(texts[..i], top) && t == texts[i] && y == top + 8 * i
    ensures doc + [Draw(t, 10, y)] == start + Rows(texts[..i + 1], top)
  {
    assert texts[..i + 1] == texts[..i] + [texts[i]];
    RowsSnoc(texts[..i], t, top);
  }

  /** A draw below everything so far keeps the document going down the page, above any lower line. */
  lemma DrawBelow(doc: seq<Draw>, t: string, x: int, y: int, next: int)
    requires Descending(doc) && Above(doc, y) && y < next
    ensures Descending(doc + [Draw(t, x, y)]) && Above(doc + [Draw(t, x, y)], next)
  {
    DescendingConcat(doc, [Draw(t, x, y)]);
  }

  /** A section starting below everything so far keeps the document going down the page, above any line below its last row. */
  lemma SectionBelow(doc: seq<Draw>, heading: string, y: int, texts: seq<string>, next: int)
    requires Descending(doc) && Above(doc, y) && y + 8 * |texts| < next
    ensures Descending(doc + Section(heading, y, texts)) && Above(doc + Section(heading, y, texts), next)
  {
    var s := Section(heading, y, texts);
    SectionDescends(heading, y, texts);
    DescendingConcat(doc, s);
    assert (doc + s)[|doc + s| - 1] == s[|s| - 1];
  }

  /**
   * A title, two sections and a closing line, each starting below where the one before ends,
   * go down the page.
   */
  lemma TwoSectionsBelow(top: seq<Draw>, h1: string, y1: int, t1: seq<string>,
                         h2: string, y2: int, t2: seq<string>, last: string, y3: int)
    requires Descending(top) && Above(top, y1)
    requires y1 + 8 * |t1| < y2 && y2 + 8 * |t2| < y3
    ensures Descending(top + Section(h1, y1, t1) + Section(h2, y2, t2) + [Draw(last, 10, y3)])
  {
    SectionBelow(top, h1, y1, t1, y2);
    var p1 := top + Section(h1, y1, t1);
    SectionBelow(p1, h2, y2, t2, y3);
    DrawBelow(p1 + Section(h2, y2, t2), last, 10, y3, y3 + 1);
  }

  /** A title and three sections, each starting below where the one before ends, go down the page. */
  lemma ThreeSectionsBelow(top: seq<Draw>, h1: string, y1: int, t1: seq<string>,
                           h2: string, y2: int, t2: seq<string>, h3: string, y3: int, t3: seq<string>)
    requires Descending(top) && Above(top, y1)
    requires y1 + 8 * |t1| < y2 && y2 + 8 * |t2| < y3
    ensures Descending(top + Section(h1, y1, t1) + Section(h2, y2, t2) + Section(h3, y3, t3))
  {
    SectionBelow(top, h1, y1, t1, y2);
    var p1 := top + Section(h1, y1, t1);
    SectionBelow(p1, h2, y2, t2, y3);
    SectionBelow(p1 + Section(h2, y2, t2), h3, y3, t3, y3 + 8 * |t3| + 1);
  }

  /** A section goes down the page from its heading, and its last draw lies 8 below each row's predecessor. */
  lemma SectionDescends(heading: string, y: int, texts: seq<string>)
    ensures var s := Section(heading, y, texts);
      s != [] && s[0].y == y && Descending(s) && s[|s| - 1].y == y + 8 * |texts|
  {
    var s := Section(heading, y, texts);
    SectionAt(heading, y, texts);
    assert forall k :: 0 <= k < |s| ==> s[k].y == y + 8 * k by {
      forall k | 0 <= k < |s| ensures s[k].y == y + 8 * k {
        if k > 0 {
          assert s[1 + (k - 1)].y == y + 8 + 8 * (k - 1);
        }
      }
    }
    PairsDescending(s);
  }

  /** Rows drawn after a fixed start of `k` draws: draw `i` past the start is row `i - k`. */
  lemma RowsAfter(start: seq<Draw>, texts: seq<string>, top: int, k: int)
    requires k == |start|
    ensures var p := start + Rows(texts, top);
      |p| == k + |texts| && (forall i :: 0 <= i < k ==> p[i] == start[i])
      && forall i :: k <= i < |p| ==> p[i] == Draw(texts[i - k], 10, top + 8 * (i - k))
  {
  }

  /** The heading of a section comes first, and row `i` comes 8·(i + 1) below it. */
  lemma SectionAt(heading: string, y: int, texts: seq<string>)
    ensures var s := Section(heading, y, texts);
      |s| == 1 + |texts| && s[0] == Draw(heading, 10, y)
      && forall i :: 0 <= i < |texts| ==> s[1 + i] == Draw(texts[i], 10, y + 8 + 8 * i)
  {
    var r := Rows(texts, y + 8);
    var s := [Draw(heading, 10, y)] + r;
    forall i | 0 <= i < |texts| ensures s[1 + i] == Draw(texts[i], 10, y + 8 + 8 * i) {
      assert s[1 + i] == r[i];
    }
  }

  /** One more row at the end of a section, as each loop step draws it. */
  lemma RowsSnoc(texts: seq<string>, t: string, top: int)
    ensures Rows(texts + [t], top) == Rows(texts, top) + [Draw(t, 10, top + 8 * |texts|)]
  {
    var a := Rows(texts + [t], top);
    var b := Rows(texts, top) + [Draw(t, 10, top + 8 * |texts|)];
    assert |a| == |b|;
    forall i | 0 <= i < |a| ensures a[i] == b[i] {
      if i < |texts| {
        assert (texts + [t])[i] == texts[i];
      }
    }
  }

  /** The rows of a section go down the page, each 8 below the one before. */
  lemma RowsDescending(texts: seq<string>, top: int)
    ensures Descending(Rows(texts, top))
  {
    PairsDescending(Rows(texts, top));
  }

  /** A document in which every draw lies below every earlier one goes down the page. */
  lemma {:induction false} PairsDescending(doc: seq<Draw>)
    requires forall i, j :: 0 <= i < j < |doc| ==> doc[i].y < doc[j].y
    ensures Descending(doc)
  {
    if |doc| > 1 {
      var t := doc[1..];
      assert forall i, j :: 0 <= i < j < |t| ==> t[i].y < t[j].y by {
        forall i, j | 0 <= i < j < |t| ensures t[i].y < t[j].y {
          assert t[i] == doc[i + 1] && t[j] == doc[j + 1];
        }
      }
      PairsDescending(t);
    }
  }

  /** Going down the page one draw at a time puts every draw below every earlier one. */
  lemma {:induction false} DescendingPairs(doc: seq<Draw>)
    requires Descending(doc)
    ensures forall i, j :: 0 <= i < j < |doc| ==> doc[i].y < doc[j].y
  {
    if |doc| > 1 {
      var t := doc[1..];
      DescendingPairs(t);
      forall i, j | 0 <= i < j < |doc| ensures doc[i].y < doc[j].y {
        assert doc[j] == t[j - 1];
        if i > 0 {
          assert doc[i] == t[i - 1];
        } else if j > 1 {
          assert t[0].y < t[j - 1].y;
        }
      }
    }
  }

  /** Two pieces each going down the page, the second starting below the end of the first, go down together. */
  lemma {:induction false} DescendingConcat(a: seq<Draw>, b: seq<Draw>)
    requires Descending(a) && Descending(b)
    requires a == [] || b == [] || a[|a| - 1].y < b[0].y
    ensures Descending(a + b)
  {
    if a == [] {
      assert a + b == b;
    } else if |a| == 1 {
      if b != [] {
        assert (a + b)[1..] == b;
      }
    } else {
      assert (a + b)[1..] == a[1..] + b;
      DescendingConcat(a[1..], b);
    }
  }
}
