/** The document handler: `read_file`'s format dispatch and the
    `split_into_chunks` cursor walk, modelled as the code is written. The
    walk is `Walk`, a list of windows driven by fuel because it does not
    always terminate; each window's chunk is its stripped slice. */
module DocumentHandler {
  import opened Results
  import opened TextUtil

  /** Boundary separators, tried in this order. */
  const Separators: seq<string> := [". ", "! ", "? ", "\n"]

  /** Defaults of the handler's constructor. */
  const DefaultChunkSize := 1000
  const DefaultChunkOverlap := 200

  /** Index of the first separator in list order that occurs anywhere
      inside `[a, b)`, or `|seps|` when none does. */
  function FirstSeparator(text: string, seps: seq<string>, a: nat, b: nat): (k: nat)
    ensures k <= |seps|
    ensures forall j :: 0 <= j < k ==> !OccursWithin(text, seps[j], a, b)
    ensures k < |seps| ==> OccursWithin(text, seps[k], a, b)
  {
    if |seps| == 0 then 0
    else if OccursWithin(text, seps[0], a, b) then 0
    else 1 + FirstSeparator(text, seps[1..], a, b)
  }

  /** The `for sep in ...: pos = text.rfind(sep, start, end)` search: the
      cut is one past the position found for the first separator with a
      hit, and `end` itself when no separator hits. */
  function CutAtSeparator(text: string, seps: seq<string>, start: int, end: int): (cut: int)
    requires forall j :: 0 <= j < |seps| ==> |seps[j]| >= 1
    ensures cut == end || NormIndex(start, |text|) < cut <= NormIndex(end, |text|)
  {
    if |seps| == 0 then end
    else
      var pos := RFind(text, seps[0], start, end);
      if pos != -1 then pos + 1 else CutAtSeparator(text, seps[1..], start, end)
  }

  /** The cut lies just after the LAST occurrence of the FIRST separator in
      list order that occurs anywhere in the window `[a, b)`, not after the
      nearest separator of any kind; with no separator the cut stays at
      `end`. */
  ghost predicate CutsAfterFirstSeparator(text: string, seps: seq<string>, a: nat, b: nat, end: int, cut: int) {
    var k := FirstSeparator(text, seps, a, b);
    && (k == |seps| ==> cut == end)
    && (k < |seps| ==>
          && a <= cut - 1 && cut - 1 + |seps[k]| <= b
          && OccursAt(text, seps[k], cut - 1)
          && forall q :: cut - 1 < q && q + |seps[k]| <= b ==> !OccursAt(text, seps[k], q))
  }

  lemma {:induction false} CutAtFirstSeparator(text: string, seps: seq<string>, start: int, end: int)
    requires forall j :: 0 <= j < |seps| ==> |seps[j]| >= 1
    ensures CutsAfterFirstSeparator(text, seps, NormIndex(start, |text|), NormIndex(end, |text|), end,
                                    CutAtSeparator(text, seps, start, end))
  {
    if |seps| > 0 && RFind(text, seps[0], start, end) == -1 {
      CutAtFirstSeparator(text, seps[1..], start, end);
    }
  }

  /** The end of the window that starts at cursor `start`: the hard edge
      `start + size`, pulled back by the separator search when the edge is
      before the text end. */
  function WindowEnd(text: string, size: int, start: int): (end: int)
    ensures start + size >= |text| ==> end == start + size
    ensures 0 <= start + size ==> end <= start + size
    ensures 0 <= start < |text| && 1 <= size ==> start < end
  {
    var end := start + size;
    if end < |text| then CutAtSeparator(text, Separators, start, end) else end
  }

  /** Separator choice for a window that ends before the text does. */
  lemma WindowEndAtSeparator(text: string, size: int, start: int)
    requires start + size < |text|
    ensures CutsAfterFirstSeparator(text, Separators, NormIndex(start, |text|), NormIndex(start + size, |text|),
                                    start + size, WindowEnd(text, size, start))
  {
    SeparatorsNonEmpty();
    CutAtFirstSeparator(text, Separators, start, start + size);
  }

  lemma SeparatorsNonEmpty()
    ensures forall j :: 0 <= j < |Separators| ==> |Separators[j]| >= 1
  {
  }

  /** The window-end rule of a handler with this `size`, as a function of
      the cursor. */
  function EndRule(text: string, size: int): (endOf: int -> int)
    ensures forall c :: endOf(c) == WindowEnd(text, size, c)
  {
    c => WindowEnd(text, size, c)
  }

  /** A window `[start, end)` of the walk; its chunk is `text[start:end].strip()`. */
  datatype Window = Window(start: int, end: int)

  function ChunkOf(text: string, w: Window): string {
    Strip(Slice(text, w.start, w.end))
  }

  function Chunks(text: string, ws: seq<Window>): (cs: seq<string>)
    ensures |cs| == |ws|
    ensures forall i :: 0 <= i < |ws| ==> cs[i] == ChunkOf(text, ws[i])
  {
    seq(|ws|, i requires 0 <= i < |ws| => ChunkOf(text, ws[i]))
  }

  /** The `while start < text_length` loop from cursor `start` over a text
      of length `n`, as the windows it visits, with at most `fuel`
      iterations; `None` when the fuel runs out first. Each window ends at
      `endOf(start)` and the next cursor is that end minus `overlap`. */
  function Walk(n: nat, endOf: int -> int, overlap: int, start: int, fuel: nat): (r: Option<seq<Window>>)
    decreases fuel
    ensures start >= n ==> r == Some([])
    ensures r.Some? ==> |r.value| <= fuel
    ensures r.Some? && start < n ==> |r.value| >= 1 && r.value[0] == Window(start, endOf(start))
    ensures r.Some? && |r.value| >= 1 ==> r.value[|r.value| - 1].end - overlap >= n
  {
    if start >= n then Some([])
    else if fuel == 0 then None
    else
      var end := endOf(start);
      match Walk(n, endOf, overlap, end - overlap, fuel - 1)
      case None => None
      case Some(rest) => Some([Window(start, end)] + rest)
  }

  /** The windows of a finished walk: each starts before the text end and
      ends where the end rule puts it, and each next cursor is the previous
      end minus the overlap. */
  lemma {:induction false} WalkWindows(n: nat, endOf: int -> int, overlap: int, start: int, fuel: nat)
    requires Walk(n, endOf, overlap, start, fuel).Some?
    ensures var ws := Walk(n, endOf, overlap, start, fuel).value;
      && (forall i :: 0 <= i < |ws| ==> ws[i].start < n && ws[i].end == endOf(ws[i].start))
      && (forall i :: 0 <= i < |ws| - 1 ==> ws[i + 1].start == ws[i].end - overlap)
    decreases fuel
  {
    if start < n {
      var next := endOf(start) - overlap;
      WalkWindows(n, endOf, overlap, next, fuel - 1);
      var rest := Walk(n, endOf, overlap, next, fuel - 1).value;
      var ws := Walk(n, endOf, overlap, start, fuel).value;
      assert ws == [Window(start, endOf(start))] + rest;
      assert forall i :: 1 <= i < |ws| ==> ws[i] == rest[i - 1];
    }
  }

  /** `split_into_chunks`, given enough fuel: every visited window yields
      its stripped slice, in order, and nothing is filtered out. `None`
      when `fuel` iterations do not bring the cursor to the text end. */
  function SplitIntoChunks(text: string, size: int, overlap: int, fuel: nat): (r: Option<seq<string>>)
    ensures |text| == 0 ==> r == Some([])
    ensures r.Some? <==> Walk(|text|, EndRule(text, size), overlap, 0, fuel).Some?
    ensures r.Some? ==> r.value == Chunks(text, Walk(|text|, EndRule(text, size), overlap, 0, fuel).value)
  {
    if |text| == 0 then Some([])
    else
      match Walk(|text|, EndRule(text, size), overlap, 0, fuel)
      case None => None
      case Some(ws) => Some(Chunks(text, ws))
  }

  /** One iteration: a finished walk from the next cursor, preceded by the
      current window, is the finished walk from `start`. */
  lemma WalkUnfold(n: nat, endOf: int -> int, overlap: int, start: int, fuel: nat)
    requires start < n && 1 <= fuel
    requires Walk(n, endOf, overlap, endOf(start) - overlap, fuel - 1).Some?
    ensures Walk(n, endOf, overlap, start, fuel)
      == Some([Window(start, endOf(start))] + Walk(n, endOf, overlap, endOf(start) - overlap, fuel - 1).value)
  {
  }

  /** Every window spans at most `size` characters, so its chunk is at
      most `size` long; this holds for a negative cursor too, whose slice
      Python reads from the text end. */
  lemma ChunkWithinSize(text: string, size: int, w: Window)
    requires 0 <= size
    requires w.end == WindowEnd(text, size, w.start)
    ensures |ChunkOf(text, w)| <= size
  {
  }

  /** More fuel never changes a finished walk. */
  lemma {:induction false} WalkFuelMonotone(n: nat, endOf: int -> int, overlap: int, start: int, fuel: nat, more: nat)
    requires Walk(n, endOf, overlap, start, fuel).Some?
    requires fuel <= more
    ensures Walk(n, endOf, overlap, start, more) == Walk(n, endOf, overlap, start, fuel)
    decreases fuel
  {
    if start < n {
      var next := endOf(start) - overlap;
      WalkFuelMonotone(n, endOf, overlap, next, fuel - 1, more - 1);
    }
  }

  /** Every window ends past its cursor. */
  ghost predicate Advancing(n: nat, endOf: int -> int) {
    forall c :: 0 <= c < n ==> c < endOf(c)
  }

  /** A sufficient condition for termination: when every window ends past
      its cursor and there is no overlap, the cursor moves strictly
      forward, so `n - start` iterations suffice. */
  lemma {:induction false} WalkTerminatesWithoutOverlap(n: nat, endOf: int -> int, overlap: int, start: int, fuel: nat)
    requires Advancing(n, endOf) && overlap <= 0
    requires 0 <= start && n - start <= fuel
    ensures Walk(n, endOf, overlap, start, fuel).Some?
    decreases n - start
  {
    if start < n {
      WalkTerminatesWithoutOverlap(n, endOf, overlap, endOf(start) - overlap, fuel - 1);
    }
  }

  lemma SplitTerminatesWithoutOverlap(text: string, size: int, overlap: int)
    requires overlap <= 0 < size
    ensures SplitIntoChunks(text, size, overlap, |text|).Some?
  {
    WalkTerminatesWithoutOverlap(|text|, EndRule(text, size), overlap, 0, |text|);
  }

  /** Once a window reaches the text end, every later one does too: its end
      is the hard edge and the cursor advances by `size - overlap`. */
  lemma {:induction false} TailTerminates(n: nat, endOf: int -> int, size: int, overlap: int, start: int, fuel: nat)
    requires forall c :: n <= c + size ==> endOf(c) == c + size
    requires 0 <= overlap < size
    requires 0 <= start && n <= start + size && n - start <= fuel
    ensures Walk(n, endOf, overlap, start, fuel).Some?
    decreases n - start
  {
    if start < n {
      TailTerminates(n, endOf, size, overlap, start + size - overlap, fuel - 1);
    }
  }

  /** A text no longer than `size - overlap` is one chunk: the stripped text. */
  lemma ShortTextIsOneChunk(text: string, size: int, overlap: int, fuel: nat)
    requires 0 <= overlap
    requires 1 <= |text| <= size - overlap
    requires 1 <= fuel
    ensures SplitIntoChunks(text, size, overlap, fuel) == Some([Strip(text)])
  {
    var endOf := EndRule(text, size);
    assert endOf(0) == size;
    WalkUnfold(|text|, endOf, overlap, 0, fuel);
    var ws := [Window(0, size)];
    assert ws + [] == ws;
    assert Slice(text, 0, size) == text;
    var cs := Chunks(text, ws);
    assert cs[0] == ChunkOf(text, ws[0]) == Strip(text);
    assert cs == [Strip(text)];
  }

  lemma EndRuleAtTail(text: string, size: int)
    ensures forall c :: |text| <= c + size ==> EndRule(text, size)(c) == c + size
  {
  }

  /** The walk over a text of length in `(size - overlap, size]`: the first
      window is the whole text, the second starts at `size - overlap`. */
  lemma TailWalk(n: nat, endOf: int -> int, size: int, overlap: int)
    requires forall c :: n <= c + size ==> endOf(c) == c + size
    requires 0 <= overlap < size
    requires size - overlap < n <= size
    ensures var r := Walk(n, endOf, overlap, 0, n);
      && r.Some? && |r.value| >= 2
      && r.value[0] == Window(0, size)
      && r.value[1] == Window(size - overlap, 2 * size - overlap)
  {
    var second := size - overlap;
    TailTerminates(n, endOf, size, overlap, second, n - 1);
    WalkUnfold(n, endOf, overlap, 0, n);
  }

  /** A text longer than `size - overlap` but no longer than `size` is
      first emitted whole, and then again as tail chunks, the first of
      them starting at `size - overlap`. */
  lemma TextWithinOverlapHasTailChunks(text: string, size: int, overlap: int)
    requires 0 <= overlap < size
    requires size - overlap < |text| <= size
    ensures var r := SplitIntoChunks(text, size, overlap, |text|);
      && r.Some? && |r.value| >= 2
      && r.value[0] == Strip(text)
      && r.value[1] == Strip(text[size - overlap..])
  {
    var endOf := EndRule(text, size);
    EndRuleAtTail(text, size);
    TailWalk(|text|, endOf, size, overlap);
    var ws := Walk(|text|, endOf, overlap, 0, |text|).value;
    TailWindowChunks(text, size, overlap);
    var cs := Chunks(text, ws);
    assert cs[0] == ChunkOf(text, ws[0]);
    assert cs[1] == ChunkOf(text, ws[1]);
  }

  lemma TailWindowChunks(text: string, size: int, overlap: int)
    requires 0 <= overlap < size
    requires size - overlap < |text| <= size
    ensures ChunkOf(text, Window(0, size)) == Strip(text)
    ensures ChunkOf(text, Window(size - overlap, 2 * size - overlap)) == Strip(text[size - overlap..])
  {
    var n, from := |text|, size - overlap;
    assert NormIndex(0, n) == 0 && NormIndex(size, n) == n;
    assert NormIndex(from, n) == from && NormIndex(2 * size - overlap, n) == n;
    SliceNormalised(text, 0, size);
    SliceNormalised(text, from, 2 * size - overlap);
    assert text[0..n] == text;
    assert Slice(text, from, 2 * size - overlap) == text[from..];
  }

  /** Whitespace-only windows are not filtered out: they appear as "". */
  lemma WhitespaceWindowGivesEmptyChunk()
    ensures SplitIntoChunks(" \t ", 10, 0, 1) == Some([""])
  {
    var endOf := EndRule(" \t ", 10);
    assert endOf(0) == 10;
    WalkUnfold(3, endOf, 0, 0, 1);
    var ws := [Window(0, 10)];
    assert ws + [] == ws;
    assert AllSpace(Slice(" \t ", 0, 10));
    var cs := Chunks(" \t ", ws);
    assert cs[0] == ChunkOf(" \t ", ws[0]) == "";
    assert cs == [""];
  }

  /** On ". xxxx" with size 4 the first window is cut after the leading ".". */
  lemma LeadingSeparatorCut()
    ensures WindowEnd(". xxxx", 4, 0) == 1
  {
    var t := ". xxxx";
    assert Separators[0] == ". ";
    assert OccursAt(t, ". ", 0);
    assert OccursWithin(t, ". ", 0, 4);
    assert FirstSeparator(t, Separators, 0, 4) == 0;
    assert !OccursAt(t, ". ", 1) && !OccursAt(t, ". ", 2) by {
      assert t[1..3] == " x" && t[2..4] == "xx";
    }
    WindowEndAtSeparator(". xxxx", 4, 0);
  }

  /** An early separator can move the cursor below zero; Python then
      counts the negative cursor from the text end, so the next window
      `text[-2:2]` is empty and its chunk is "". */
  lemma CursorCanGoNegative()
    ensures WindowEnd(". xxxx", 4, 0) - 3 == -2
    ensures WindowEnd(". xxxx", 4, -2) == 2
    ensures ChunkOf(". xxxx", Window(-2, 2)) == ""
  {
    LeadingSeparatorCut();
    assert Slice(". xxxx", -2, 2) == [];
    var t := ". xxxx";
    forall k | 0 <= k < |Separators| ensures RFind(t, Separators[k], -2, 2) == -1 { }
  }

  /** The walk as written never ends on ". xxxx" with size 4 and overlap 1:
      the window is cut after the leading "." and the overlap moves the
      cursor straight back to 0, so no amount of fuel finishes it. */
  lemma StuckCursorNeverFinishes(fuel: nat)
    ensures SplitIntoChunks(". xxxx", 4, 1, fuel) == None
  {
    LeadingSeparatorCut();
    StuckWalk(EndRule(". xxxx", 4), fuel);
  }

  lemma {:induction false} StuckWalk(endOf: int -> int, fuel: nat)
    requires endOf(0) == 1
    ensures Walk(6, endOf, 1, 0, fuel) == None
    decreases fuel
  {
    if fuel > 0 {
      StuckWalk(endOf, fuel - 1);
    }
  }

  /** Corrected walk: the cursor moves back by the overlap only when that
      still leaves it past the current cursor; otherwise it continues from
      the window end. Every iteration advances, so no fuel is needed. */
  function NextCursorFixed(end: int, overlap: int, start: int): (next: int)
    requires start < end
    ensures start < next
    ensures next == end - overlap || next == end
    ensures end - overlap > start ==> next == end - overlap
  {
    if end - overlap > start then end - overlap else end
  }

  function WalkFixed(n: nat, endOf: int -> int, overlap: int, start: nat): (ws: seq<Window>)
    requires Advancing(n, endOf)
    decreases n - start
    ensures start >= n ==> ws == []
    ensures start < n ==> 1 <= |ws| <= n - start && ws[0] == Window(start, endOf(start))
    ensures forall i :: 0 <= i < |ws| ==> start <= ws[i].start < n
    ensures forall i :: 0 <= i < |ws| - 1 ==> ws[i].start < ws[i + 1].start
    ensures 0 <= overlap ==> forall i :: 0 <= i < |ws| - 1 ==> ws[i + 1].start <= ws[i].end
    ensures 0 <= overlap && |ws| >= 1 ==> ws[|ws| - 1].end >= n
  {
    if start >= n then []
    else
      var end := endOf(start);
      [Window(start, end)] + WalkFixed(n, endOf, overlap, NextCursorFixed(end, overlap, start))
  }

  lemma WindowsAdvance(text: string, size: int)
    requires 1 <= size
    ensures Advancing(|text|, EndRule(text, size))
  {
  }

  function SplitIntoChunksFixed(text: string, size: int, overlap: int): (r: seq<string>)
    requires 1 <= size
    ensures |text| == 0 <==> r == []
    ensures |r| <= |text|
  {
    WindowsAdvance(text, size);
    Chunks(text, WalkFixed(|text|, EndRule(text, size), overlap, 0))
  }

  /** Where the written walk already advances, the corrected walk agrees
      with it. */
  lemma {:induction false} WalkFixedAgrees(n: nat, endOf: int -> int, overlap: int, start: nat, fuel: nat)
    requires Advancing(n, endOf) && overlap <= 0
    requires n - start <= fuel
    ensures Walk(n, endOf, overlap, start, fuel) == Some(WalkFixed(n, endOf, overlap, start))
    decreases n - start
  {
    if start < n {
      var end := endOf(start);
      var next := end - overlap;
      assert NextCursorFixed(end, overlap, start) == next;
      WalkFixedAgrees(n, endOf, overlap, next, fuel - 1);
      assert WalkFixed(n, endOf, overlap, start) == [Window(start, end)] + WalkFixed(n, endOf, overlap, next);
      WalkUnfold(n, endOf, overlap, start, fuel);
    }
  }

  lemma FixedAgreesWithoutOverlap(text: string, size: int, overlap: int)
    requires overlap <= 0 < size
    ensures SplitIntoChunks(text, size, overlap, |text|) == Some(SplitIntoChunksFixed(text, size, overlap))
  {
    WindowsAdvance(text, size);
    WalkFixedAgrees(|text|, EndRule(text, size), overlap, 0, |text|);
  }

  /** The corrected walk finishes on the input that traps the written one. */
  lemma FixedWalkFinishesOnStuckInput()
    ensures SplitIntoChunksFixed(". xxxx", 4, 1) == [".", "xxx", "xx"]
  {
    var t := ". xxxx";
    var ws := [Window(0, 1), Window(1, 5), Window(4, 8)];
    StuckInputEnds();
    WindowsAdvance(t, 4);
    StuckInputFixedWindows(EndRule(t, 4));
    FixedChunksOfWindows(t, 4, 1, ws);
    ChunksOfThree(t, ws);
    StuckInputChunks();
  }

  lemma FixedChunksOfWindows(text: string, size: int, overlap: int, ws: seq<Window>)
    requires 1 <= size
    requires Advancing(|text|, EndRule(text, size))
    requires WalkFixed(|text|, EndRule(text, size), overlap, 0) == ws
    ensures SplitIntoChunksFixed(text, size, overlap) == Chunks(text, ws)
  {
  }

  lemma ChunksOfThree(text: string, ws: seq<Window>)
    requires |ws| == 3
    ensures Chunks(text, ws) == [ChunkOf(text, ws[0]), ChunkOf(text, ws[1]), ChunkOf(text, ws[2])]
  {
  }

  /** Where the windows of `". xxxx"` end with `chunk_size` 4. */
  lemma StuckInputEnds()
    ensures EndRule(". xxxx", 4)(0) == 1 && EndRule(". xxxx", 4)(1) == 5 && EndRule(". xxxx", 4)(4) == 8
  {
    LeadingSeparatorCut();
    NoSeparatorInWindow();
  }

  lemma StuckInputChunks()
    ensures ChunkOf(". xxxx", Window(0, 1)) == "."
    ensures ChunkOf(". xxxx", Window(1, 5)) == "xxx"
    ensures ChunkOf(". xxxx", Window(4, 8)) == "xx"
  {
    FirstChunkOfStuckInput();
    SecondChunkOfStuckInput();
    ThirdChunkOfStuckInput();
  }

  lemma FirstChunkOfStuckInput()
    ensures ChunkOf(". xxxx", Window(0, 1)) == "."
  {
    assert Slice(". xxxx", 0, 1) == ".";
    StripUnchanged(".");
  }

  lemma SecondChunkOfStuckInput()
    ensures ChunkOf(". xxxx", Window(1, 5)) == "xxx"
  {
    assert Slice(". xxxx", 1, 5) == [' '] + "xxx";
    StripUnchanged("xxx");
    StripLeadingBlank("xxx");
  }

  lemma ThirdChunkOfStuckInput()
    ensures ChunkOf(". xxxx", Window(4, 8)) == "xx"
  {
    assert Slice(". xxxx", 4, 8) == "xx";
    StripUnchanged("xx");
  }

  lemma StuckInputFixedWindows(endOf: int -> int)
    requires Advancing(6, endOf)
    requires endOf(0) == 1 && endOf(1) == 5 && endOf(4) == 8
    ensures WalkFixed(6, endOf, 1, 0) == [Window(0, 1), Window(1, 5), Window(4, 8)]
  {
    var w0, w1, w2 := Window(0, 1), Window(1, 5), Window(4, 8);
    assert NextCursorFixed(1, 1, 0) == 1 && NextCursorFixed(5, 1, 1) == 4 && NextCursorFixed(8, 1, 4) == 7;
    assert WalkFixed(6, endOf, 1, 7) == [];
    assert WalkFixed(6, endOf, 1, 4) == [w2] + [];
    assert WalkFixed(6, endOf, 1, 1) == [w1] + [w2];
    assert WalkFixed(6, endOf, 1, 0) == [w0] + [w1, w2];
  }

  lemma NoSeparatorInWindow()
    ensures WindowEnd(". xxxx", 4, 1) == 5
  {
    var t := ". xxxx";
    forall k | 0 <= k < |Separators|
      ensures !OccursWithin(t, Separators[k], 1, 5)
    {
      var sep := Separators[k];
      forall p | 1 <= p && p + |sep| <= 5
        ensures !OccursAt(t, sep, p)
      {
        assert t[p] != sep[0] || t[p + 1] != sep[1] by {
          assert t[1..] == " xxxx";
        }
      }
    }
    WindowEndAtSeparator(t, 4, 1);
  }

  // ---------------------------------------------------------------------
  // read_file: format dispatch on the lower-cased file suffix.

  datatype Format = PlainText | Pdf | Docx

  datatype ReadError =
    | FileNotFound(path: string)
    | UnsupportedFormat(extension: string)
    | ReaderFailed(message: string)

  /** `path` without its trailing slashes. */
  function TrimTrailingSlashes(path: string): (p: string)
    ensures |p| <= |path| && p == path[..|p|]
    ensures p == [] || p[|p| - 1] != '/'
    ensures forall k :: |p| <= k < |path| ==> path[k] == '/'
  {
    if |path| > 0 && path[|path| - 1] == '/' then TrimTrailingSlashes(path[..|path| - 1]) else path
  }

  /** A one-character pattern occurs exactly where that character is. */
  lemma SingleCharOccurs(s: string, c: char)
    ensures forall k :: 0 <= k < |s| ==> (OccursAt(s, [c], k) <==> s[k] == c)
  {
    forall k | 0 <= k < |s| ensures OccursAt(s, [c], k) <==> s[k] == c {
      assert s[k..k + 1] == [s[k]];
    }
  }

  /** The final path component (`Path(p).name`): the longest tail of the
      path, trailing slashes dropped, that holds no '/'. */
  function BaseName(path: string): (name: string)
    ensures forall k :: 0 <= k < |name| ==> name[k] != '/'
    ensures var p := TrimTrailingSlashes(path);
      && |name| <= |p| && name == p[|p| - |name|..]
      && (|name| < |p| ==> p[|p| - |name| - 1] == '/')
  {
    var p := TrimTrailingSlashes(path);
    var i := RFind(p, "/", 0, |p|);
    SingleCharOccurs(p, '/');
    p[i + 1..]
  }

  /** The names `PurePath.suffix` gives no extension: empty, ending in a
      dot, or with no dot after the first character. */
  predicate Suffixless(name: string) {
    |name| == 0 || name[|name| - 1] == '.' || forall k :: 0 < k < |name| ==> name[k] != '.'
  }

  /** `PurePath.suffix`: from the last '.' of the name, provided that dot is
      neither the first nor the last character; otherwise empty. */
  function Suffix(name: string): (ext: string)
    ensures ext == [] || (ext[0] == '.' && |ext| >= 2 && |ext| < |name|)
    ensures ext != [] ==> name[|name| - |ext|..] == ext
    ensures ext != [] ==> forall k :: 1 <= k < |ext| ==> ext[k] != '.'
    ensures ext == [] <==> Suffixless(name)
  {
    var i := RFind(name, ".", 0, |name|);
    SingleCharOccurs(name, '.');
    if 0 < i < |name| - 1 then name[i..] else []
  }

  /** A trailing dot leaves no suffix, even after an earlier dot. */
  lemma TrailingDotHasNoSuffix()
    ensures Suffix("a.b.") == []
  {
  }

  function FormatOf(path: string): (r: Result<Format, ReadError>)
    ensures var ext := LowerAscii(Suffix(BaseName(path)));
      && (r == Success(PlainText) <==> ext == ".txt")
      && (r == Success(Pdf) <==> ext == ".pdf")
      && (r == Success(Docx) <==> ext == ".docx")
      && (r.Failure? <==> ext !in {".txt", ".pdf", ".docx"})
      && (r.Failure? ==> r.error == UnsupportedFormat(ext))
  {
    var ext := LowerAscii(Suffix(BaseName(path)));
    if ext == ".txt" then Success(PlainText)
    else if ext == ".pdf" then Success(Pdf)
    else if ext == ".docx" then Success(Docx)
    else Failure(UnsupportedFormat(ext))
  }

  /** `read_file`: a missing path fails before any dispatch; the readers
      themselves (encoding detection, PDF and DOCX extraction) are the
      opaque `extract`. */
  function ReadFile(path: string, found: bool, extract: Format -> Result<string, string>): (r: Result<string, ReadError>)
    ensures !found ==> r == Failure(FileNotFound(path))
    ensures found && FormatOf(path).Failure? ==> r == Failure(FormatOf(path).error)
    ensures found && FormatOf(path).Success? ==>
      r == match extract(FormatOf(path).value)
           case Success(t) => Success(t)
           case Failure(m) => Failure(ReaderFailed(m))
  {
    if !found then Failure(FileNotFound(path))
    else
      var format :- FormatOf(path);
      match extract(format)
      case Success(t) => Success(t)
      case Failure(m) => Failure(ReaderFailed(m))
  }

  /** `process_document`: read, then split; `Success(None)` when the walk
      runs out of fuel. */
  function ProcessDocument(path: string, found: bool, extract: Format -> Result<string, string>,
                           size: int, overlap: int, fuel: nat): (r: Result<Option<seq<string>>, ReadError>)
    ensures ReadFile(path, found, extract).Failure? ==> r == Failure(ReadFile(path, found, extract).error)
    ensures ReadFile(path, found, extract).Success? ==>
      r == Success(SplitIntoChunks(ReadFile(path, found, extract).value, size, overlap, fuel))
  {
    var text :- ReadFile(path, found, extract);
    Success(SplitIntoChunks(text, size, overlap, fuel))
  }

  /** Trimming is determined by its contract: the prefix that leaves only
      slashes behind and does not end with one. */
  lemma TrimUnique(path: string, x: string)
    requires |x| <= |path| && x == path[..|x|]
    requires x == [] || x[|x| - 1] != '/'
    requires forall k :: |x| <= k < |path| ==> path[k] == '/'
    ensures x == TrimTrailingSlashes(path)
  {
  }

  /** The final component is the only slash-free tail of the trimmed path
      that is the whole of it or follows a '/'. */
  lemma LastComponentUnique(path: string, p: string, x: string)
    requires p == TrimTrailingSlashes(path)
    requires forall k :: 0 <= k < |x| ==> x[k] != '/'
    requires |x| <= |p| && x == p[|p| - |x|..]
    requires |x| < |p| ==> p[|p| - |x| - 1] == '/'
    ensures x == BaseName(path)
  {
  }

  /** The suffix is determined by its contract. */
  lemma SuffixUnique(name: string, x: string)
    requires x == [] <==> Suffixless(name)
    requires x != [] ==>
      && x[0] == '.' && |x| < |name| && name[|name| - |x|..] == x
      && forall k :: 1 <= k < |x| ==> x[k] != '.'
    ensures x == Suffix(name)
  {
  }

  /** Only the final component selects the reader: a directory in front of
      a file name changes nothing. */
  lemma FormatOfIgnoresDirectory(dir: string, name: string)
    requires name != [] && forall k :: 0 <= k < |name| ==> name[k] != '/'
    ensures FormatOf(dir + "/" + name) == FormatOf(name)
  {
    var path := dir + "/" + name;
    assert path[|path| - 1] == name[|name| - 1];
    TrimUnique(path, path);
    TrimUnique(name, name);
    assert path[|path| - |name|..] == name;
    assert path[|path| - |name| - 1] == '/';
    LastComponentUnique(path, path, name);
    LastComponentUnique(name, name, name);
  }

  /** ASCII lower-casing leaves '/' and '.' where they are and adds none. */
  lemma LowerKeepsSeparators(s: string)
    ensures forall k :: 0 <= k < |s| ==> (LowerAscii(s)[k] == '/' <==> s[k] == '/')
    ensures forall k :: 0 <= k < |s| ==> (LowerAscii(s)[k] == '.' <==> s[k] == '.')
  {
  }

  /** Lower-casing commutes with taking a slice. */
  lemma LowerSlice(s: string, a: nat, b: nat)
    requires a <= b <= |s|
    ensures LowerAscii(s)[a..b] == LowerAscii(s[a..b])
  {
    var l, r := LowerAscii(s)[a..b], LowerAscii(s[a..b]);
    forall k | 0 <= k < |l| ensures l[k] == r[k] {
      assert s[a..b][k] == s[a + k];
    }
  }

  lemma LowerIdempotent(s: string)
    ensures LowerAscii(LowerAscii(s)) == LowerAscii(s)
  {
  }

  lemma TrimLower(path: string)
    ensures TrimTrailingSlashes(LowerAscii(path)) == LowerAscii(TrimTrailingSlashes(path))
  {
    var t := TrimTrailingSlashes(path);
    LowerKeepsSeparators(path);
    LowerKeepsSeparators(t);
    LowerSlice(path, 0, |t|);
    assert t == path[0..|t|];
    assert LowerAscii(t) == LowerAscii(path)[..|t|];
    TrimUnique(LowerAscii(path), LowerAscii(t));
  }

  /** Lower-casing keeps a slash-free tail of `t`, preceded by a slash, slash-free and slash-preceded. */
  lemma LowerLastComponent(t: string, b: string)
    requires |b| <= |t| && b == t[|t| - |b|..]
    requires forall k :: 0 <= k < |b| ==> b[k] != '/'
    requires |b| < |t| ==> t[|t| - |b| - 1] == '/'
    ensures var lt, lb := LowerAscii(t), LowerAscii(b);
      && |lb| <= |lt| && lb == lt[|lt| - |lb|..]
      && (forall k :: 0 <= k < |lb| ==> lb[k] != '/')
      && (|lb| < |lt| ==> lt[|lt| - |lb| - 1] == '/')
  {
    LowerKeepsSeparators(b);
    LowerSlice(t, |t| - |b|, |t|);
    assert b == t[|t| - |b|..|t|];
    if |b| < |t| {
      assert LowerAscii(t)[|t| - |b| - 1] == LowerChar(t[|t| - |b| - 1]);
    }
  }

  lemma BaseNameLower(path: string)
    ensures BaseName(LowerAscii(path)) == LowerAscii(BaseName(path))
  {
    var t := TrimTrailingSlashes(path);
    var b := BaseName(path);
    TrimLower(path);
    LowerLastComponent(t, b);
    LastComponentUnique(LowerAscii(path), LowerAscii(t), LowerAscii(b));
  }


  /** Lower-casing neither creates nor removes the conditions under which
      a name has no suffix. */
  lemma LowerKeepsSuffixless(name: string)
    ensures Suffixless(LowerAscii(name)) <==> Suffixless(name)
  {
    LowerKeepsSeparators(name);
  }

  /** Lower-casing a dotted, dot-free-after-the-first tail of `name` gives
      the same shape of tail of the lower-cased name. */
  lemma LowerDottedTail(name: string, e: string)
    requires e != [] && e[0] == '.' && |e| < |name| && name[|name| - |e|..] == e
    requires forall k :: 1 <= k < |e| ==> e[k] != '.'
    ensures var ln, le := LowerAscii(name), LowerAscii(e);
      && le[0] == '.' && |le| < |ln| && ln[|ln| - |le|..] == le
      && forall k :: 1 <= k < |le| ==> le[k] != '.'
  {
    LowerKeepsSeparators(e);
    LowerSlice(name, |name| - |e|, |name|);
    assert e == name[|name| - |e|..|name|];
  }

  lemma SuffixLower(name: string)
    ensures Suffix(LowerAscii(name)) == LowerAscii(Suffix(name))
  {
    var e := Suffix(name);
    LowerKeepsSuffixless(name);
    if e != [] {
      LowerDottedTail(name, e);
    }
    SuffixUnique(LowerAscii(name), LowerAscii(e));
  }


  /** The dispatch ignores ASCII case everywhere in the path, not only in
      the extension. */
  lemma FormatOfIgnoresCase(path: string)
    ensures FormatOf(LowerAscii(path)) == FormatOf(path)
  {
    BaseNameLower(path);
    SuffixLower(BaseName(path));
    LowerIdempotent(Suffix(BaseName(path)));
  }

  /** The extension match ignores ASCII case. */
  lemma UpperCaseExtensionDispatches()
    ensures FormatOf("a/b.PDF") == Success(Pdf)
  {
    BaseNameExample();
    SuffixExample();
    LowerPdf();
    assert LowerAscii(Suffix(BaseName("a/b.PDF"))) == ".pdf";
  }

  lemma LowerPdf()
    ensures LowerAscii(".PDF") == ".pdf"
  {
    var r := LowerAscii(".PDF");
    assert r[0] == '.' && r[1] == 'p' && r[2] == 'd' && r[3] == 'f';
  }

  lemma BaseNameExample()
    ensures BaseName("a/b.PDF") == "b.PDF"
  {
    var p := "a/b.PDF";
    assert TrimTrailingSlashes(p) == p;
    assert OccursAt(p, "/", 1);
    forall q | 1 < q && q + 1 <= 7 ensures !OccursAt(p, "/", q) {
      assert p[q..q + 1] == [p[q]];
    }
    assert RFind(p, "/", 0, 7) == 1;
  }

  lemma SuffixExample()
    ensures Suffix("b.PDF") == ".PDF"
  {
    var n := "b.PDF";
    assert OccursAt(n, ".", 1);
    forall q | 1 < q && q + 1 <= 5 ensures !OccursAt(n, ".", q) {
      assert n[q..q + 1] == [n[q]];
    }
    assert RFind(n, ".", 0, 5) == 1;
  }

  /** A name that is only a dot and an extension has no suffix at all. */
  lemma HiddenFileHasNoFormat()
    ensures FormatOf(".txt") == Failure(UnsupportedFormat(""))
  {
    HiddenBaseName();
    HiddenSuffix();
    assert LowerAscii("") == "";
  }

  lemma HiddenBaseName()
    ensures BaseName(".txt") == ".txt"
  {
    var n := ".txt";
    assert TrimTrailingSlashes(n) == n;
    forall q | 0 <= q && q + 1 <= 4 ensures !OccursAt(n, "/", q) {
      assert n[q..q + 1] == [n[q]];
    }
    assert !OccursWithin(n, "/", 0, 4);
    assert RFind(n, "/", 0, 4) == -1;
  }

  lemma HiddenSuffix()
    ensures Suffix(".txt") == ""
  {
    var n := ".txt";
    assert OccursAt(n, ".", 0);
    forall q | 0 < q && q + 1 <= 4 ensures !OccursAt(n, ".", q) {
      assert n[q..q + 1] == [n[q]];
    }
    assert RFind(n, ".", 0, 4) == 0;
  }
}
