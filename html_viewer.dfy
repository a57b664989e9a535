// The HTML viewer: the source text with a span opened for each annotation
// at its position and closed at its end, and with the open spans closed
// before every line break and reopened after it.

module HtmlViewer {
  import opened Annotations
  import opened FactBases
  import opened Wrappers
  import opened SeqFacts

  /** What annotate writes, piece by piece: a span opened at an
    * annotation's position, a span reopened after a line break, a span
    * closed at an annotation's end, a span closed before a line break, or
    * one character of the source. */
  datatype Token =
    | Open(a: Annotation)
    | Reopen(a: Annotation)
    | Close
    | LineClose
    | Char(c: char)

  /** The opening tag for an annotation. */
  function SpanOpen(a: Annotation): string {
    "<span class='context-menu " + a.text + "' data-address='" + DependencyLabel(a.ids) + "'>"
  }

  /** A source character as written: the angle brackets are escaped. */
  function Escape(c: char): (s: string)
    ensures '<' !in s && '>' !in s
  {
    if c == '<' then "&#60" else if c == '>' then "&#62" else [c]
  }

  function Render(t: Token): string {
    match t
    case Open(a) => SpanOpen(a)
    case Reopen(a) => SpanOpen(a)
    case Close => "</span>"
    case LineClose => "</span>"
    case Char(c) => Escape(c)
  }

  function RenderAll(toks: seq<Token>): string
    decreases |toks|
  {
    if |toks| == 0 then "" else RenderAll(toks[..|toks| - 1]) + Render(toks[|toks| - 1])
  }

  /** The source characters written so far. */
  function Chars(toks: seq<Token>): string
    decreases |toks|
  {
    if |toks| == 0 then ""
    else Chars(toks[..|toks| - 1]) + (if toks[|toks| - 1].Char? then [toks[|toks| - 1].c] else [])
  }

  /** The output with every span tag stripped. */
  function TextOf(toks: seq<Token>): string
    decreases |toks|
  {
    if |toks| == 0 then ""
    else TextOf(toks[..|toks| - 1]) + (if toks[|toks| - 1].Char? then Escape(toks[|toks| - 1].c) else "")
  }

  /** The source with '<' and '>' escaped. */
  function EscapeAll(s: string): (r: string)
    decreases |s|
  {
    if |s| == 0 then "" else EscapeAll(s[..|s| - 1]) + Escape(s[|s| - 1])
  }

  /** The escaped source has no angle brackets, so every bracket of the
    * output belongs to a span tag. */
  lemma {:induction false} EscapeAllHasNoBrackets(s: string)
    ensures '<' !in EscapeAll(s) && '>' !in EscapeAll(s)
    decreases |s|
  {
    if |s| > 0 {
      EscapeAllHasNoBrackets(s[..|s| - 1]);
    }
  }

  /** Stripping the span tags leaves the escaped source characters. */
  lemma {:induction false} TextOfIsEscapedChars(toks: seq<Token>)
    ensures TextOf(toks) == EscapeAll(Chars(toks))
    decreases |toks|
  {
    if |toks| > 0 {
      var pre := toks[..|toks| - 1];
      TextOfIsEscapedChars(pre);
      var t := toks[|toks| - 1];
      if t.Char? {
        var s := Chars(toks);
        assert s == Chars(pre) + [t.c];
        assert s[..|s| - 1] == Chars(pre);
        assert EscapeAll(s) == EscapeAll(Chars(pre)) + Escape(t.c);
      } else {
        assert Chars(toks) == Chars(pre) + [] == Chars(pre);
        assert TextOf(toks) == TextOf(pre) + "" == TextOf(pre);
      }
    }
  }

  /** What the written tokens amount to, apart from their rendering: the
    * source characters written, whether every span was opened just before
    * the character at its annotation's position, the positions (counted
    * in source characters) at which spans were closed, the end positions
    * of the opened annotations (all of them, and those of positive
    * length), and the opened annotations. */
  datatype View = View(chars: string, opensAtPosition: bool, closes: multiset<int>,
                       ends: multiset<int>, positiveEnds: multiset<int>, started: set<Annotation>)

  function Step(v: View, t: Token): View {
    match t
    case Open(a) =>
      v.(opensAtPosition := v.opensAtPosition && |v.chars| == a.absolutePosition,
         ends := v.ends + multiset{a.absolutePosition + a.length},
         positiveEnds := v.positiveEnds + (if a.length > 0 then multiset{a.absolutePosition + a.length} else multiset{}),
         started := v.started + {a})
    case Close => v.(closes := v.closes + multiset{|v.chars|})
    case Char(c) => v.(chars := v.chars + [c])
    case Reopen(_) => v
    case LineClose => v
  }

  function ViewOf(toks: seq<Token>): View
    decreases |toks|
  {
    if |toks| == 0 then View("", true, multiset{}, multiset{}, multiset{}, {})
    else Step(ViewOf(toks[..|toks| - 1]), toks[|toks| - 1])
  }

  /** The characters of the view are those of the Char tokens. */
  lemma {:induction false} ViewCharsAreChars(toks: seq<Token>)
    ensures ViewOf(toks).chars == Chars(toks)
    decreases |toks|
  {
    if |toks| > 0 {
      ViewCharsAreChars(toks[..|toks| - 1]);
    }
  }

  /** Writing one more token. */
  lemma Snoc(toks: seq<Token>, t: Token)
    ensures RenderAll(toks + [t]) == RenderAll(toks) + Render(t)
    ensures ViewOf(toks + [t]) == Step(ViewOf(toks), t)
  {
    assert (toks + [t])[..|toks|] == toks;
  }

  /** The bookkeeping of annotate before the character at position i is
    * handled (after the spans due at i are closed, it holds for i + 1):
    * `due` holds one end position per entry counted in closeAt, one per
    * open tag; ends at or after i are all still due, and only annotations
    * of positive length end there; spans that ended before i were closed
    * there exactly once each. */
  ghost predicate Books(i: int, v: View, closeAt: map<int, int>, due: multiset<int>, openTags: seq<Annotation>) {
    (forall p :: p in closeAt ==> closeAt[p] == due[p])
    && (forall p :: p !in closeAt ==> due[p] == 0)
    && |due| == |openTags|
    && (forall p :: p >= i ==> due[p] == v.ends[p] && v.ends[p] == v.positiveEnds[p] && v.closes[p] == 0)
    && (forall p :: p < i ==> v.closes[p] == v.positiveEnds[p])
  }

  /** What has been written is the rendering of the tokens, the source up
    * to i, with every span opened at its annotation's position. */
  ghost predicate Written(source: string, i: int, out: string, toks: seq<Token>, v: View) {
    0 <= i <= |source| && out == RenderAll(toks) && v == ViewOf(toks) && v.chars == source[..i] && v.opensAtPosition
  }

  /** Closing the spans due at i settles the books up to i + 1. */
  lemma BooksAfterClose(i: int, v: View, closeAt: map<int, int>, due: multiset<int>, openTags: seq<Annotation>,
                        v': View, due': multiset<int>, openTags': seq<Annotation>)
    requires Books(i, v, closeAt, due, openTags) && |v.chars| == i
    requires v' == v.(closes := v'.closes)
    requires v'.closes[i] == v.closes[i] + (if i in closeAt then closeAt[i] else 0)
    requires forall p :: p != i ==> v'.closes[p] == v.closes[p]
    requires due'[i] == 0 && (forall p :: p != i ==> due'[p] == due[p]) && |due'| == |openTags'|
    ensures Books(i + 1, v', closeAt - {i}, due', openTags')
  {
  }

  /** n copies of one token. */
  function Repeat(t: Token, n: nat): (r: seq<Token>)
    ensures |r| == n && forall k :: 0 <= k < n ==> r[k] == t
  {
    if n == 0 then [] else Repeat(t, n - 1) + [t]
  }

  /** The tags for reopening the open tags (the newest first in `tags`),
    * the oldest first. */
  function Reopens(tags: seq<Annotation>): (r: seq<Token>)
    ensures |r| == |tags| && forall k :: 0 <= k < |tags| ==> r[k] == Reopen(tags[|tags| - 1 - k])
  {
    if |tags| == 0 then [] else Reopens(tags[1..]) + [Reopen(tags[0])]
  }

  /** The tags for opening annotations, in the order given. */
  function Opens(opening: seq<Annotation>): (r: seq<Token>)
    ensures |r| == |opening| && forall k :: 0 <= k < |opening| ==> r[k] == Open(opening[k])
  {
    if |opening| == 0 then [] else Opens(opening[..|opening| - 1]) + [Open(opening[|opening| - 1])]
  }

  /** The open tags (the newest first) after the annotations `opened` are
    * pushed, in order, onto `tags`. */
  function Pushed(opening: seq<Annotation>, tags: seq<Annotation>): (r: seq<Annotation>)
    ensures |r| == |opening| + |tags|
  {
    if |opening| == 0 then tags else [opening[|opening| - 1]] + Pushed(opening[..|opening| - 1], tags)
  }

  /** Opening one more annotation. */
  lemma OpeningSnoc(opening: seq<Annotation>, a: Annotation, tags: seq<Annotation>)
    ensures Opens(opening + [a]) == Opens(opening) + [Open(a)]
    ensures Pushed(opening + [a], tags) == [a] + Pushed(opening, tags)
  {
    assert (opening + [a])[..|opening|] == opening;
  }

  /** The tokens and open tags after one more annotation opens. */
  lemma OpeningStep(toks: seq<Token>, opening: seq<Annotation>, a: Annotation, openTags: seq<Annotation>,
                    toks': seq<Token>, openTags': seq<Annotation>)
    requires toks' == toks + Opens(opening) && openTags' == Pushed(opening, openTags)
    ensures toks' + [Open(a)] == toks + Opens(opening + [a])
    ensures [a] + openTags' == Pushed(opening + [a], openTags)
  {
    OpeningSnoc(opening, a, openTags);
  }

  /** Clearing one element from a multiset removes as many elements as it
    * occurred. */
  lemma {:induction false} ClearCount(m: multiset<int>, x: int)
    ensures |m[x := 0]| + m[x] == |m|
    decreases m[x]
  {
    if m[x] > 0 {
      var m' := m - multiset{x};
      ClearCount(m', x);
      assert m'[x := 0] == m[x := 0];
    } else {
      assert m[x := 0] == m;
    }
  }

  /** A closing tag at i, the j + 1st after toks0. */
  lemma CloseWritten(source: string, i: int, out: string, toks: seq<Token>, v: View, toks0: seq<Token>, j: nat)
    requires Written(source, i, out, toks, v) && toks == toks0 + Repeat(Close, j)
    ensures Written(source, i, out + "</span>", toks + [Close], Step(v, Close))
    ensures toks + [Close] == toks0 + Repeat(Close, j + 1)
    ensures Step(v, Close) == v.(closes := v.closes + multiset{i})
  {
    Snoc(toks, Close);
  }

  /** n closing tags at position i, each popping an open tag. */
  method WriteCloses(ghost source: string, i: int, out: string, ghost toks: seq<Token>, ghost v: View,
                     n: nat, openTags: seq<Annotation>)
      returns (out': string, ghost toks': seq<Token>, ghost v': View, openTags': seq<Annotation>)
    requires Written(source, i, out, toks, v) && n <= |openTags|
    ensures Written(source, i, out', toks', v')
    ensures toks' == toks + Repeat(Close, n) && openTags' == openTags[n..]
    ensures v' == v.(closes := v'.closes)
    ensures v'.closes[i] == v.closes[i] + n && forall p :: p != i ==> v'.closes[p] == v.closes[p]
  {
    out', toks', v', openTags' := out, toks, v, openTags;
    for j := 0 to n
      invariant Written(source, i, out', toks', v')
      invariant toks' == toks + Repeat(Close, j) && openTags' == openTags[j..]
      invariant v' == v.(closes := v'.closes)
      invariant v'.closes[i] == v.closes[i] + j && forall p :: p != i ==> v'.closes[p] == v.closes[p]
    {
      CloseWritten(source, i, out', toks', v', toks, j);
      out' := out' + "</span>";
      toks' := toks' + [Close];
      v' := Step(v', Close);
      DropDrop(openTags, j);
      openTags' := openTags'[1..];
    }
  }

  /** The spans due at i are closed: as many closing tags as closeAt
    * counts at i, each popping an open tag; the entry is removed. */
  method CloseDue(ghost source: string, i: int, out: string, ghost toks: seq<Token>, ghost v: View,
                  closeAt: map<int, int>, ghost due: multiset<int>, openTags: seq<Annotation>)
      returns (out': string, ghost toks': seq<Token>, ghost v': View, closeAt': map<int, int>,
               ghost due': multiset<int>, openTags': seq<Annotation>)
    requires Written(source, i, out, toks, v) && i < |source|
    requires Books(i, v, closeAt, due, openTags)
    ensures Written(source, i, out', toks', v') && Books(i + 1, v', closeAt', due', openTags')
    ensures v'.started == v.started
    ensures closeAt' == closeAt - {i}
    ensures var sem := if i in closeAt then closeAt[i] else 0;
            toks' == toks + Repeat(Close, sem) && openTags' == openTags[sem..]
  {
    var sem := if i in closeAt then closeAt[i] else 0;
    assert sem == due[i];
    ClearCount(due, i);
    out', toks', v', openTags' := WriteCloses(source, i, out, toks, v, sem, openTags);
    due' := due[i := 0];
    closeAt' := closeAt - {i};
    assert |v.chars| == i;
    BooksAfterClose(i, v, closeAt, due, openTags, v', due', openTags');
  }

  /** Reopening the open tag at k, after those above it. */
  lemma ReopenWritten(source: string, i: int, out: string, toks: seq<Token>, v: View,
                      toks0: seq<Token>, openTags: seq<Annotation>, k: nat)
    requires Written(source, i, out, toks, v) && k < |openTags| && toks == toks0 + Reopens(openTags[k + 1..])
    ensures Written(source, i, out + SpanOpen(openTags[k]), toks + [Reopen(openTags[k])], v)
    ensures toks + [Reopen(openTags[k])] == toks0 + Reopens(openTags[k..])
  {
    DropDrop(openTags, k);
    Snoc(toks, Reopen(openTags[k]));
  }

  /** After a line break, every open tag is reopened, the oldest first. */
  method ReopenAll(ghost source: string, i: int, out: string, ghost toks: seq<Token>, ghost v: View,
                   openTags: seq<Annotation>)
      returns (out': string, ghost toks': seq<Token>)
    requires Written(source, i, out, toks, v)
    ensures Written(source, i, out', toks', v)
    ensures toks' == toks + Reopens(openTags)
  {
    out', toks' := out, toks;
    var k := |openTags|;
    while k > 0
      invariant 0 <= k <= |openTags|
      invariant Written(source, i, out', toks', v)
      invariant toks' == toks + Reopens(openTags[k..])
    {
      k := k - 1;
      ReopenWritten(source, i, out', toks', v, toks, openTags, k);
      out' := out' + SpanOpen(openTags[k]);
      toks' := toks' + [Reopen(openTags[k])];
    }
  }

  /** Before a line break, one closing tag per open tag; the tags stay
    * open. */
  method CloseForLineBreak(ghost source: string, i: int, out: string, ghost toks: seq<Token>, ghost v: View, n: nat)
      returns (out': string, ghost toks': seq<Token>)
    requires Written(source, i, out, toks, v)
    ensures Written(source, i, out', toks', v)
    ensures toks' == toks + Repeat(LineClose, n)
  {
    out', toks' := out, toks;
    for k := 0 to n
      invariant Written(source, i, out', toks', v) && toks' == toks + Repeat(LineClose, k)
    {
      Snoc(toks', LineClose);
      out' := out' + "</span>";
      toks' := toks' + [LineClose];
    }
  }

  /** Opening an annotation at its position keeps the books: its end is
    * due, and counted as a positive end exactly when it lies ahead. */
  lemma BooksAfterOpen(i: int, a: Annotation, v: View, closeAt: map<int, int>, due: multiset<int>,
                       openTags: seq<Annotation>, closeAt': map<int, int>)
    requires Books(i + 1, v, closeAt, due, openTags) && |v.chars| == i && a.absolutePosition == i
    requires var cp := a.length + i;
             closeAt' == closeAt[cp := if cp in closeAt then closeAt[cp] + 1 else 1]
    ensures Books(i + 1, Step(v, Open(a)), closeAt', due + multiset{a.length + i}, [a] + openTags)
  {
  }

  /** Opening an annotation at i keeps what has been written consistent
    * and the books settled up to i + 1. */
  lemma OpenWritten(source: string, i: int, a: Annotation, out: string, toks: seq<Token>, v: View,
                    closeAt: map<int, int>, due: multiset<int>, openTags: seq<Annotation>, closeAt': map<int, int>)
    requires Written(source, i, out, toks, v) && a.absolutePosition == i
    requires Books(i + 1, v, closeAt, due, openTags)
    requires var cp := a.length + i;
             closeAt' == closeAt[cp := if cp in closeAt then closeAt[cp] + 1 else 1]
    ensures Written(source, i, out + SpanOpen(a), toks + [Open(a)], Step(v, Open(a)))
    ensures Books(i + 1, Step(v, Open(a)), closeAt', due + multiset{a.length + i}, [a] + openTags)
    ensures Step(v, Open(a)).started == v.started + {a}
  {
    Snoc(toks, Open(a));
    BooksAfterOpen(i, a, v, closeAt, due, openTags, closeAt');
  }

  /** Opening one annotation at i: its tag is written and pushed, and one
    * more close is scheduled at its end. */
  method OpenOne(ghost source: string, i: int, a: Annotation, out: string, ghost toks: seq<Token>, ghost v: View,
                 closeAt: map<int, int>, ghost due: multiset<int>, openTags: seq<Annotation>)
      returns (out': string, ghost toks': seq<Token>, ghost v': View, closeAt': map<int, int>,
               ghost due': multiset<int>, openTags': seq<Annotation>)
    requires Written(source, i, out, toks, v) && i < |source| && a.absolutePosition == i
    requires Books(i + 1, v, closeAt, due, openTags)
    ensures Written(source, i, out', toks', v') && Books(i + 1, v', closeAt', due', openTags')
    ensures toks' == toks + [Open(a)] && openTags' == [a] + openTags
    ensures v'.started == v.started + {a}
  {
    var closePosition := a.length + i;
    closeAt' := closeAt[closePosition := if closePosition in closeAt then closeAt[closePosition] + 1 else 1];
    OpenWritten(source, i, a, out, toks, v, closeAt, due, openTags, closeAt');
    out' := out + SpanOpen(a);
    toks' := toks + [Open(a)];
    v' := Step(v, Open(a));
    openTags' := [a] + openTags;
    due' := due + multiset{closePosition};
  }

  /** Writing the character at i extends what has been written by one
    * source character. */
  lemma CharWritten(source: string, i: int, out: string, toks: seq<Token>, v: View)
    requires Written(source, i, out, toks, v) && i < |source|
    ensures Step(v, Char(source[i])) == v.(chars := v.chars + [source[i]])
    ensures Written(source, i + 1, out + Escape(source[i]), toks + [Char(source[i])], Step(v, Char(source[i])))
  {
    Snoc(toks, Char(source[i]));
    TakeSnoc(source, i);
  }

  /** The character at i, escaped. */
  method WriteChar(source: string, i: int, out: string, ghost toks: seq<Token>, ghost v: View)
      returns (out': string, ghost toks': seq<Token>, ghost v': View)
    requires Written(source, i, out, toks, v) && i < |source|
    ensures Written(source, i + 1, out', toks', v')
    ensures toks' == toks + [Char(source[i])]
    ensures v' == v.(chars := v.chars + [source[i]])
  {
    var c := source[i];
    if c == '<' {
      out' := out + "&#60";
    } else if c == '>' {
      out' := out + "&#62";
    } else {
      out' := out + [c];
    }
    assert out' == out + Escape(c);
    CharWritten(source, i, out, toks, v);
    toks' := toks + [Char(c)];
    v' := Step(v, Char(c));
  }

  /** Every annotation has a position of at most 0. */
  predicate AllNonPositive(items: seq<Annotation>) {
    forall k :: 0 <= k < |items| ==> items[k].absolutePosition <= 0
  }

  /** Popping the first n annotations, all but the last of which have a
    * position of at most 0, leaves every annotation either still in the
    * fact base, or the last one popped, or at a position of at most 0. */
  lemma Accounted(all: seq<Annotation>, n: int)
    requires 0 < n <= |all| && AllNonPositive(all[..n - 1])
    ensures forall x :: x in all ==> x in all[n..] || x == all[n - 1] || x.absolutePosition <= 0
  {
    forall x | x in all
      ensures x in all[n..] || x == all[n - 1] || x.absolutePosition <= 0
    {
      var k :| 0 <= k < |all| && all[k] == x;
      if k < n - 1 {
        assert all[..n - 1][k] == x;
      } else if k >= n {
        assert all[n..][k - n] == x;
      }
    }
  }

  /** The leading loop of annotate: annotations are popped until one with a
    * positive position is found, which becomes the first to open. When
    * none has a positive position, the last one popped is kept. */
  method SkipLeading(fb: AnnotationFactBase) returns (current: Option<Annotation>)
    requires fb.Valid()
    modifies fb.annotations
    ensures fb.Valid()
    ensures old(fb.annotations.items) == [] <==> current.None?
    ensures current.None? ==> fb.annotations.items == []
    ensures current.Some? ==> current.value in old(fb.annotations.items)
    ensures forall x :: x in fb.annotations.items ==> x in old(fb.annotations.items)
    ensures current.Some? && current.value.absolutePosition <= 0 ==>
      AllNonPositive(old(fb.annotations.items)) && fb.annotations.items == []
      && current.value == old(fb.annotations.items)[|old(fb.annotations.items)| - 1]
    ensures current.Some? && current.value.absolutePosition > 0 ==>
      forall x :: x in fb.annotations.items ==> x.absolutePosition >= current.value.absolutePosition
    ensures forall x :: x in old(fb.annotations.items) ==>
      x in fb.annotations.items || current == Some(x) || x.absolutePosition <= 0
  {
    current := None;
    ghost var all := fb.annotations.items;
    ghost var n := 0;
    while !fb.IsEmpty()
      invariant fb.Valid()
      invariant 0 <= n <= |all| && fb.annotations.items == all[n..]
      invariant AllNonPositive(all[..n])
      invariant current.Some? <==> n > 0
      invariant current.Some? ==> current.value == all[n - 1]
      decreases |fb.annotations.items|
    {
      var popped := fb.Pop();
      assert popped.value == all[n];
      assert all[n..][1..] == all[n + 1..];
      current := Some(popped.value);
      n := n + 1;
      if popped.value.absolutePosition > 0 {
        forall x | x in fb.annotations.items
          ensures x.absolutePosition >= popped.value.absolutePosition
        {
          assert Less(popped.value, x);
        }
        assert all[..n - 1] == all[..n][..n - 1];
        Accounted(all, n);
        return;
      }
      assert all[..n] == all[..n - 1] + [popped.value];
    }
    assert all[..n] == all;
    if n > 0 {
      assert all[..n - 1] == all[..n][..n - 1];
      Accounted(all, n);
    }
  }

  /** Where annotate stands with the fact base before the character at i:
    * what is left of it and the current annotation come from the original
    * annotations, in order, at or after i; every original annotation has
    * been opened, is still to come, or lies at a position of at most 0;
    * and one of those opens only when every annotation does and it is the
    * last. */
  ghost predicate Queue(fb: AnnotationFactBase, current: Option<Annotation>, all: seq<Annotation>, i: int,
                        started: set<Annotation>)
    reads fb, fb.annotations
  {
    fb.Valid()
    && (forall x :: x in fb.annotations.items ==> x in all)
    && (current.None? ==> fb.annotations.items == [])
    && (current.Some? ==> current.value in all)
    && (current.Some? && current.value.absolutePosition <= 0 ==>
          AllNonPositive(all) && fb.annotations.items == [] && current.value == all[|all| - 1])
    && (current.Some? && current.value.absolutePosition > 0 ==>
          current.value.absolutePosition >= i
          && forall x :: x in fb.annotations.items ==> x.absolutePosition >= current.value.absolutePosition)
    && (forall x :: x in all ==> x in started || x in fb.annotations.items || current == Some(x) || x.absolutePosition <= 0)
    && (forall a :: a in started ==> a in all)
    && (forall a :: a in started && a.absolutePosition <= 0 ==> AllNonPositive(all) && a == all[|all| - 1])
  }

  /** After the current annotation, at i, is opened, the next one is popped
    * from the fact base, or there is none when the fact base is empty. */
  method TakeNext(fb: AnnotationFactBase, ghost all: seq<Annotation>, i: int, ghost started: set<Annotation>,
                  ghost a: Annotation)
      returns (current': Option<Annotation>)
    requires Queue(fb, Some(a), all, i, started) && a.absolutePosition == i && 0 <= i
    modifies fb.annotations
    ensures Queue(fb, current', all, i, started + {a})
    ensures |fb.annotations.items| + (if current'.Some? then 1 else 0) <= |old(fb.annotations.items)|
  {
    if fb.IsEmpty() {
      current' := None;
    } else {
      ghost var before := fb.annotations.items;
      var popped := fb.Pop();
      assert popped.value in before;
      current' := Some(popped.value);
    }
  }

  /** One round of opening at i: the current annotation is opened and the
    * next one taken from the fact base. */
  method OpenNext(source: string, i: int, out: string, ghost toks: seq<Token>, ghost v: View,
                  closeAt: map<int, int>, ghost due: multiset<int>, openTags: seq<Annotation>,
                  fb: AnnotationFactBase, current: Option<Annotation>, ghost all: seq<Annotation>,
                  ghost toks0: seq<Token>, ghost openTags0: seq<Annotation>, ghost opening: seq<Annotation>)
      returns (out': string, ghost toks': seq<Token>, ghost v': View, closeAt': map<int, int>,
               ghost due': multiset<int>, openTags': seq<Annotation>, current': Option<Annotation>,
               ghost opening': seq<Annotation>)
    requires Written(source, i, out, toks, v) && i < |source| && Books(i + 1, v, closeAt, due, openTags)
    requires current.Some? && current.value.absolutePosition == i
    requires Queue(fb, current, all, i, v.started)
    requires forall a :: a in v.started ==> 0 <= a.absolutePosition <= i
    requires toks == toks0 + Opens(opening) && openTags == Pushed(opening, openTags0)
    modifies fb.annotations
    ensures Written(source, i, out', toks', v') && Books(i + 1, v', closeAt', due', openTags')
    ensures Queue(fb, current', all, i, v'.started)
    ensures forall a :: a in v'.started ==> 0 <= a.absolutePosition <= i
    ensures toks' == toks0 + Opens(opening') && openTags' == Pushed(opening', openTags0)
    ensures |fb.annotations.items| + (if current'.Some? then 1 else 0) < |old(fb.annotations.items)| + 1
  {
    var next := current.value;
    OpeningStep(toks0, opening, next, openTags0, toks, openTags);
    out', toks', v', closeAt', due', openTags' := OpenOne(source, i, next, out, toks, v, closeAt, due, openTags);
    opening' := opening + [next];
    current' := TakeNext(fb, all, i, v.started, next);
  }

  /** Opening every annotation at position i, in order, each popped from
    * the fact base after its predecessor opened. */
  method OpenStarting(source: string, i: int, out: string, ghost toks: seq<Token>, ghost v: View,
                      closeAt: map<int, int>, ghost due: multiset<int>, openTags: seq<Annotation>,
                      fb: AnnotationFactBase, current: Option<Annotation>, ghost all: seq<Annotation>)
      returns (out': string, ghost toks': seq<Token>, ghost v': View, closeAt': map<int, int>,
               ghost due': multiset<int>, openTags': seq<Annotation>, current': Option<Annotation>,
               ghost opening: seq<Annotation>)
    requires Written(source, i, out, toks, v) && i < |source| && Books(i + 1, v, closeAt, due, openTags)
    requires Queue(fb, current, all, i, v.started)
    requires forall a :: a in v.started ==> 0 <= a.absolutePosition <= i
    modifies fb.annotations
    ensures Written(source, i, out', toks', v') && Books(i + 1, v', closeAt', due', openTags')
    ensures Queue(fb, current', all, i + 1, v'.started)
    ensures forall a :: a in v'.started ==> 0 <= a.absolutePosition <= i
    ensures toks' == toks + Opens(opening) && openTags' == Pushed(opening, openTags)
  {
    out', toks', v', closeAt', due', openTags', current' := out, toks, v, closeAt, due, openTags, current;
    opening := [];
    AppendNil(toks);
    while current'.Some? && current'.value.absolutePosition == i
      invariant Written(source, i, out', toks', v') && Books(i + 1, v', closeAt', due', openTags')
      invariant Queue(fb, current', all, i, v'.started)
      invariant forall a :: a in v'.started ==> 0 <= a.absolutePosition <= i
      invariant toks' == toks + Opens(opening) && openTags' == Pushed(opening, openTags)
      decreases |fb.annotations.items| + (if current'.Some? then 1 else 0)
    {
      out', toks', v', closeAt', due', openTags', current', opening :=
        OpenNext(source, i, out', toks', v', closeAt', due', openTags', fb, current', all, toks, openTags, opening);
    }
  }

  /** At a line boundary: after a line break every open tag is reopened,
    * the oldest first; before one, a closing tag is written per open tag,
    * the tags staying open. */
  method LineBreaks(source: string, i: int, out: string, ghost toks: seq<Token>, ghost v: View,
                    openTags: seq<Annotation>)
      returns (out': string, ghost toks': seq<Token>)
    requires Written(source, i, out, toks, v) && i < |source|
    ensures Written(source, i, out', toks', v)
    ensures toks' == toks + (if i > 0 && source[i - 1] == '\n' then Reopens(openTags) else [])
                          + (if source[i] == '\n' then Repeat(LineClose, |openTags|) else [])
  {
    out', toks' := out, toks;
    ghost var reopened: seq<Token> := [];
    if i > 0 && source[i - 1] == '\n' {
      out', toks' := ReopenAll(source, i, out', toks', v, openTags);
      reopened := Reopens(openTags);
    }
    AppendNil(toks);
    assert toks' == toks + reopened;
    ghost var mid := toks';
    if source[i] == '\n' {
      out', toks' := CloseForLineBreak(source, i, out', toks', v, |openTags|);
    } else {
      AppendNil(mid);
    }
  }

  /** What annotate writes for the character at one position: the closing
    * tags of the spans ending there, the tags reopened after a line break
    * (given as the open tags, the newest first), the closing tags before a
    * line break, the tags of the spans starting there, and the character. */
  datatype Block = Block(closes: nat, reopened: seq<Annotation>, lineCloses: nat, opening: seq<Annotation>, c: char)

  function BlockTokens(b: Block): seq<Token> {
    Repeat(Close, b.closes) + Reopens(b.reopened) + Repeat(LineClose, b.lineCloses) + Opens(b.opening) + [Char(b.c)]
  }

  function Flatten(blocks: seq<Block>): seq<Token>
    decreases |blocks|
  {
    if |blocks| == 0 then [] else Flatten(blocks[..|blocks| - 1]) + BlockTokens(blocks[|blocks| - 1])
  }

  /** The open tags, the newest first, after the blocks: each block pops
    * one tag per closing tag at an annotation's end and pushes the spans it
    * opens; the line-break tags leave them alone. */
  function OpenAfter(blocks: seq<Block>): seq<Annotation>
    decreases |blocks|
  {
    if |blocks| == 0 then []
    else
      var tags := OpenAfter(blocks[..|blocks| - 1]);
      var b := blocks[|blocks| - 1];
      Pushed(b.opening, if b.closes <= |tags| then tags[b.closes..] else [])
  }

  /** The block at position i of the source, given the open tags before
    * it: it writes the character at i; when the previous character is a
    * line break it reopens exactly the tags left open after its closes;
    * when its own character is a line break it writes one closing tag for
    * each of those tags, and none otherwise. */
  ghost predicate LineBlock(source: string, i: int, b: Block, tags: seq<Annotation>) {
    0 <= i < |source| && b.c == source[i] && b.closes <= |tags|
    && b.reopened == (if i > 0 && source[i - 1] == '\n' then tags[b.closes..] else [])
    && b.lineCloses == (if source[i] == '\n' then |tags| - b.closes else 0)
  }

  /** Every block so far follows the line-break rule. */
  ghost predicate LinesKept(source: string, blocks: seq<Block>) {
    |blocks| <= |source|
    && forall i :: 0 <= i < |blocks| ==> LineBlock(source, i, blocks[i], OpenAfter(blocks[..i]))
  }

  /** One more block: its tokens follow those of the blocks before. */
  lemma FlattenSnoc(blocks: seq<Block>, b: Block)
    ensures Flatten(blocks + [b]) == Flatten(blocks) + BlockTokens(b)
    ensures b.closes <= |OpenAfter(blocks)| ==>
      OpenAfter(blocks + [b]) == Pushed(b.opening, OpenAfter(blocks)[b.closes..])
  {
    assert (blocks + [b])[..|blocks|] == blocks;
  }

  lemma PrefixOfSnoc(blocks: seq<Block>, b: Block, i: int)
    requires 0 <= i <= |blocks|
    ensures (blocks + [b])[..i] == blocks[..i]
    ensures i < |blocks| ==> (blocks + [b])[i] == blocks[i]
    ensures i == |blocks| ==> (blocks + [b])[i] == b && blocks[..i] == blocks
  {
  }

  /** One more block that follows the line-break rule. */
  lemma BlockSnoc(source: string, blocks: seq<Block>, b: Block)
    requires LinesKept(source, blocks) && LineBlock(source, |blocks|, b, OpenAfter(blocks))
    ensures LinesKept(source, blocks + [b])
  {
    var bs := blocks + [b];
    forall i | 0 <= i < |bs|
      ensures LineBlock(source, i, bs[i], OpenAfter(bs[..i]))
    {
      if i < |blocks| {
        PrefixOfSnoc(blocks, b, i);
        assert LineBlock(source, i, blocks[i], OpenAfter(blocks[..i]));
      } else {
        PrefixOfSnoc(blocks, b, i);
      }
    }
  }

  /** Annotate's tokens before the character at i: the blocks of the
    * first i characters, each following the line-break rule, with the
    * open tags they leave. */
  ghost predicate Traced(source: string, i: int, toks: seq<Token>, openTags: seq<Annotation>, blocks: seq<Block>) {
    |blocks| == i && toks == Flatten(blocks) && openTags == OpenAfter(blocks) && LinesKept(source, blocks)
  }

  /** Writing the block for the character at i. */
  lemma TracedStep(source: string, i: int, toks: seq<Token>, openTags: seq<Annotation>, blocks: seq<Block>,
                   b: Block, toks': seq<Token>, openTags': seq<Annotation>)
    requires Traced(source, i, toks, openTags, blocks) && LineBlock(source, i, b, openTags)
    requires toks' == toks + BlockTokens(b) && openTags' == Pushed(b.opening, openTags[b.closes..])
    ensures Traced(source, i + 1, toks', openTags', blocks + [b])
  {
    FlattenSnoc(blocks, b);
    BlockSnoc(source, blocks, b);
  }

  /** The spans reopened after a line break: when no span closes right
    * after it, they are the spans closed before it together with those
    * opened at the line break itself, which were never closed for it; when
    * none opened there either, they are exactly the spans closed before
    * it. */
  lemma ReopenedAfterLineBreak(source: string, blocks: seq<Block>, i: int)
    requires LinesKept(source, blocks) && 0 <= i && i + 1 < |blocks| && source[i] == '\n'
    requires blocks[i + 1].closes == 0
    ensures |blocks[i + 1].reopened| == blocks[i].lineCloses + |blocks[i].opening|
    ensures blocks[i].opening == [] ==> blocks[i + 1].reopened == OpenAfter(blocks[..i])[blocks[i].closes..]
  {
    var pre := blocks[..i + 1];
    assert pre[..i] == blocks[..i] && pre[i] == blocks[i];
    assert LineBlock(source, i, blocks[i], OpenAfter(blocks[..i]));
    assert LineBlock(source, i + 1, blocks[i + 1], OpenAfter(pre));
  }

  /** The tokens of one position, written in turn. */
  lemma BlockWritten(toks: seq<Token>, t1: seq<Token>, t2: seq<Token>, t3: seq<Token>, t4: seq<Token>, b: Block)
    requires t1 == toks + Repeat(Close, b.closes)
    requires t2 == t1 + Reopens(b.reopened) + Repeat(LineClose, b.lineCloses)
    requires t3 == t2 + Opens(b.opening) && t4 == t3 + [Char(b.c)]
    ensures t4 == toks + BlockTokens(b)
  {
  }

  /** One character of annotate's loop: the spans due at i are closed,
    * line breaks handled, the spans starting at i opened and the
    * character written, as the block `b`, which follows the line-break
    * rule. */
  method Advance(source: string, i: int, out: string, ghost toks: seq<Token>, ghost v: View,
                 closeAt: map<int, int>, ghost due: multiset<int>, openTags: seq<Annotation>,
                 fb: AnnotationFactBase, current: Option<Annotation>, ghost all: seq<Annotation>)
      returns (out': string, ghost toks': seq<Token>, ghost v': View, closeAt': map<int, int>,
               ghost due': multiset<int>, openTags': seq<Annotation>, current': Option<Annotation>,
               ghost b: Block)
    requires Written(source, i, out, toks, v) && i < |source| && Books(i, v, closeAt, due, openTags)
    requires Queue(fb, current, all, i, v.started)
    requires forall a :: a in v.started ==> 0 <= a.absolutePosition < i
    modifies fb.annotations
    ensures Written(source, i + 1, out', toks', v') && Books(i + 1, v', closeAt', due', openTags')
    ensures Queue(fb, current', all, i + 1, v'.started)
    ensures forall a :: a in v'.started ==> 0 <= a.absolutePosition < i + 1
    ensures toks' == toks + BlockTokens(b) && LineBlock(source, i, b, openTags)
    ensures b.closes == (if i in closeAt then closeAt[i] else 0)
    ensures openTags' == Pushed(b.opening, openTags[b.closes..])
  {
    ghost var sem := if i in closeAt then closeAt[i] else 0;
    assert sem == due[i] && due[i] <= |due|;
    out', toks', v', closeAt', due', openTags' := CloseDue(source, i, out, toks, v, closeAt, due, openTags);
    ghost var t1, afterCloses := toks', openTags';
    out', toks' := LineBreaks(source, i, out', toks', v', openTags');
    ghost var t2 := toks';
    ghost var opening;
    out', toks', v', closeAt', due', openTags', current', opening :=
      OpenStarting(source, i, out', toks', v', closeAt', due', openTags', fb, current, all);
    ghost var t3 := toks';
    ghost var beforeChar := v';
    out', toks', v' := WriteChar(source, i, out', toks', v');
    assert v'.started == beforeChar.started;
    b := Block(sem, if i > 0 && source[i - 1] == '\n' then afterCloses else [],
               if source[i] == '\n' then |afterCloses| else 0, opening, source[i]);
    BlockWritten(toks, t1, t2, t3, toks', b);
  }

  /** The main loop of annotate, from the first character to the last,
    * with the fact base positioned by the leading loop. */
  method WriteAll(source: string, fb: AnnotationFactBase, current: Option<Annotation>, ghost all: seq<Annotation>)
      returns (out: string, ghost toks: seq<Token>, ghost blocks: seq<Block>, ghost current': Option<Annotation>)
    requires Queue(fb, current, all, 0, {})
    modifies fb.annotations
    ensures Written(source, |source|, out, toks, ViewOf(toks))
    ensures |blocks| == |source| && toks == Flatten(blocks) && LinesKept(source, blocks)
    ensures forall p :: ViewOf(toks).closes[p] == (if p < |source| then ViewOf(toks).positiveEnds[p] else 0)
    ensures Queue(fb, current', all, |source|, ViewOf(toks).started)
    ensures forall a :: a in ViewOf(toks).started ==> 0 <= a.absolutePosition < |source|
  {
    out := "";
    toks := [];
    ghost var v := ViewOf(toks);
    var next := current;
    var closeAt: map<int, int> := map[];
    ghost var due: multiset<int> := multiset{};
    var openTags: seq<Annotation> := [];
    blocks := [];
    for i := 0 to |source|
      invariant Written(source, i, out, toks, v) && Books(i, v, closeAt, due, openTags)
      invariant Queue(fb, next, all, i, v.started)
      invariant forall a :: a in v.started ==> 0 <= a.absolutePosition < i
      invariant Traced(source, i, toks, openTags, blocks)
    {
      ghost var toks0, openTags0 := toks, openTags;
      ghost var b;
      out, toks, v, closeAt, due, openTags, next, b :=
        Advance(source, i, out, toks, v, closeAt, due, openTags, fb, next, all);
      TracedStep(source, i, toks0, openTags0, blocks, b, toks, openTags);
      blocks := blocks + [b];
    }
    current' := next;
  }

  /** HTMLMultiDiffViewer.annotate: the source, escaped, with a span
    * opened for each annotation just before the character at its position.
    * At each position inside the source as many closing tags are written
    * as annotations of positive length end there, each closing the most
    * recently opened span. The output is one block per character, each
    * following the line-break rule: before a line break one closing tag
    * per span then open, after it those spans reopened, the oldest first.
    * The annotations are taken from the fact base in order: those inside
    * the source after position 0 are all opened, and one at position 0
    * only when it is the last and no annotation lies after 0. */
  method Annotate(source: string, fb: AnnotationFactBase)
      returns (out: string, ghost toks: seq<Token>, ghost blocks: seq<Block>)
    requires fb.Valid()
    modifies fb.annotations
    ensures out == RenderAll(toks)
    ensures |blocks| == |source| && toks == Flatten(blocks) && LinesKept(source, blocks)
    ensures Chars(toks) == source
    ensures TextOf(toks) == EscapeAll(source)
    ensures ViewOf(toks).opensAtPosition
    ensures forall p :: ViewOf(toks).closes[p] == (if p < |source| then ViewOf(toks).positiveEnds[p] else 0)
    ensures forall a :: a in ViewOf(toks).started ==> a in old(fb.annotations.items) && 0 <= a.absolutePosition < |source|
    ensures forall a :: a in old(fb.annotations.items) && 0 < a.absolutePosition < |source| ==> a in ViewOf(toks).started
    ensures forall a :: a in ViewOf(toks).started && a.absolutePosition == 0 ==>
      AllNonPositive(old(fb.annotations.items)) && a == old(fb.annotations.items)[|old(fb.annotations.items)| - 1]
  {
    ghost var all := fb.annotations.items;
    var current := SkipLeading(fb);
    ghost var last;
    out, toks, blocks, last := WriteAll(source, fb, current, all);
    assert source[..|source|] == source;
    ViewCharsAreChars(toks);
    TextOfIsEscapedChars(toks);
  }
}
