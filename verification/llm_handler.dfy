/** `LLMHandler`: the control logic around a fine-tuned language model —
    latest-checkpoint selection, loading with retries, the prompt template,
    reply extraction, the initialised flag and the memoised generation.
    Directory listings, model loading and token generation are opaque
    functions of the attempt number. */
module LlmHandler {
  import opened Results
  import opened TextUtil
  import opened RetryPolicy

  const DefaultMaxRetries: int := 3

  /** The three operations that run inside a retry loop. */
  datatype Operation = FindCheckpoint | LoadModel | GenerateResponse

  datatype LlmError =
    | NotInitialized
    | NoCheckpointDirectories(base: string)
    | NoValidCheckpointNumbers
    | Upstream(message: string)                                   // an exception from a library call
    | RetriesExhausted(op: Operation, attempts: int, last: LlmError)

  /** One directory entry under the model path. */
  datatype Entry = Entry(name: string, isDir: bool)

  const CheckpointPrefix: string := "checkpoint-"

  /** `base_path.glob("checkpoint-*")` restricted to directories. */
  predicate IsCheckpointDir(e: Entry) {
    e.isDir && StartsWith(e.name, CheckpointPrefix)
  }

  /** `checkpoint-(\d+)` matches at `p`. */
  predicate MatchesAt(s: string, p: nat) {
    OccursAt(s, CheckpointPrefix, p) && p + |CheckpointPrefix| < |s| && IsDigit(s[p + |CheckpointPrefix|])
  }

  /** The leftmost match at or after `p`, as `re.search` finds it. */
  function SearchFrom(s: string, p: nat): (r: Option<nat>)
    requires p <= |s|
    ensures r.Some? ==> p <= r.value < |s| && MatchesAt(s, r.value)
    ensures r.Some? ==> forall q :: p <= q < r.value ==> !MatchesAt(s, q)
    ensures r.None? ==> forall q :: p <= q < |s| ==> !MatchesAt(s, q)
    decreases |s| - p
  {
    if p == |s| then None
    else if MatchesAt(s, p) then Some(p)
    else SearchFrom(s, p + 1)
  }

  /** The end of the run of digits starting at `i`; `\d+` is greedy. */
  function DigitRunEnd(s: string, i: nat): (j: nat)
    requires i <= |s|
    ensures i <= j <= |s|
    ensures forall k :: i <= k < j ==> IsDigit(s[k])
    ensures j == |s| || !IsDigit(s[j])
    decreases |s| - i
  {
    if i < |s| && IsDigit(s[i]) then DigitRunEnd(s, i + 1) else i
  }

  /** `int(re.search(r'checkpoint-(\d+)', name).group(1))`, or `None`
      when the pattern does not occur. */
  function CheckpointNumber(name: string): (r: Option<nat>)
    ensures r.None? <==> forall q :: 0 <= q < |name| ==> !MatchesAt(name, q)
    ensures r.Some? ==>
      && SearchFrom(name, 0).Some?
      && var a := SearchFrom(name, 0).value + |CheckpointPrefix|;
         r.value == ParseDigits(name[a..DigitRunEnd(name, a)])
  {
    match SearchFrom(name, 0)
    case None => None
    case Some(p) =>
      var a := p + |CheckpointPrefix|;
      Some(ParseDigits(name[a..DigitRunEnd(name, a)]))
  }

  /** The directory name the handler rebuilds from a number reads back
      as that number. */
  lemma CheckpointNumberRoundTrip(n: nat)
    ensures CheckpointNumber(CheckpointPrefix + NatToString(n)) == Some(n)
  {
    var d := NatToString(n);
    PrefixedDigits(d);
    ParseNatToString(n);
  }

  /** The prefix followed by a digit string is matched at 0, and the
      greedy digit run is the whole digit string. */
  lemma PrefixedDigits(d: string)
    requires |d| >= 1 && AllDigits(d)
    ensures var s := CheckpointPrefix + d;
      && SearchFrom(s, 0) == Some(0)
      && DigitRunEnd(s, |CheckpointPrefix|) == |s|
      && s[|CheckpointPrefix|..|s|] == d
  {
    var s := CheckpointPrefix + d;
    var a := |CheckpointPrefix|;
    assert s[..a] == CheckpointPrefix;
    assert s[a] == d[0];
    assert MatchesAt(s, 0);
    assert s[a..] == d;
    assert forall k :: a <= k < |s| ==> IsDigit(s[k]) by {
      forall k | a <= k < |s| ensures IsDigit(s[k]) {
        assert s[k] == d[k - a];
      }
    }
    DigitRunAll(s, a);
  }

  lemma {:induction false} DigitRunAll(s: string, i: nat)
    requires i <= |s|
    requires forall k :: i <= k < |s| ==> IsDigit(s[k])
    ensures DigitRunEnd(s, i) == |s|
    decreases |s| - i
  {
    if i < |s| {
      DigitRunAll(s, i + 1);
    }
  }

  /** Leading zeros are read as a number and not kept. */
  lemma LeadingZerosAreDropped()
    ensures CheckpointNumber("checkpoint-007") == Some(7)
    ensures NatToString(7) == "7"
  {
    var s := "checkpoint-007";
    assert s[..11] == CheckpointPrefix;
    assert MatchesAt(s, 0);
    assert DigitRunEnd(s, 11) == 14;
    assert s[11..14] == "007";
    assert ParseDigits("007") == 7 by {
      assert "007"[..2] == "00";
      assert "00"[..1] == "0";
      assert "0"[..0] == "";
    }
  }

  /** The number a directory entry contributes, if any. */
  function NumberOf(e: Entry): Option<nat> {
    if IsCheckpointDir(e) then CheckpointNumber(e.name) else None
  }

  /** `max(checkpoint_numbers)` over the numbers `number` gives the
      entries, or `None` when there are none. */
  function MaxNumber(entries: seq<Entry>, number: Entry -> Option<nat>): (r: Option<nat>)
    ensures r.None? <==> forall i :: 0 <= i < |entries| ==> number(entries[i]).None?
    ensures r.Some? ==> exists i :: 0 <= i < |entries| && number(entries[i]) == r
    ensures r.Some? ==> forall i :: 0 <= i < |entries| && number(entries[i]).Some? ==>
      number(entries[i]).value <= r.value
    decreases |entries|
  {
    if entries == [] then None
    else
      var head := number(entries[0]);
      var rest := MaxNumber(entries[1..], number);
      assert forall i :: 1 <= i < |entries| ==> entries[i] == entries[1..][i - 1];
      if rest.Some? && (head.None? || head.value < rest.value) then
        var k :| 0 <= k < |entries| - 1 && number(entries[1..][k]) == rest;
        assert number(entries[k + 1]) == rest;
        rest
      else if head.None? then None
      else head
  }

  /** `str(base_path / f"checkpoint-{n}")`; path normalisation is left out. */
  function CheckpointPath(base: string, n: nat): string {
    base + "/" + CheckpointPrefix + NatToString(n)
  }

  /** One attempt of `find_latest_checkpoint` over one directory listing. */
  function LatestCheckpointOnce(base: string, entries: seq<Entry>): (r: Result<string, LlmError>)
    ensures r == Failure(NoCheckpointDirectories(base)) <==>
      forall i :: 0 <= i < |entries| ==> !IsCheckpointDir(entries[i])
    ensures r == Failure(NoValidCheckpointNumbers) <==>
      (exists i :: 0 <= i < |entries| && IsCheckpointDir(entries[i])) &&
      forall i :: 0 <= i < |entries| ==> NumberOf(entries[i]).None?
    ensures r.Success? <==> exists i :: 0 <= i < |entries| && NumberOf(entries[i]).Some?
    ensures r.Success? ==> exists n: nat ::
      r.value == CheckpointPath(base, n) &&
      (exists i :: 0 <= i < |entries| && NumberOf(entries[i]) == Some(n)) &&
      forall i :: 0 <= i < |entries| && NumberOf(entries[i]).Some? ==> NumberOf(entries[i]).value <= n
  {
    if forall i :: 0 <= i < |entries| ==> !IsCheckpointDir(entries[i]) then
      Failure(NoCheckpointDirectories(base))
    else
      match MaxNumber(entries, NumberOf)
      case None => Failure(NoValidCheckpointNumbers)
      case Some(n) => Success(CheckpointPath(base, n))
  }

  /** The shared retry shape: `None` when no attempt is made, the first
      success, or an `LLMError` naming the operation, the attempt count and
      the last failure. */
  function Retried<T>(n: int, attempt: nat -> Result<T, LlmError>, op: Operation): (r: Result<Option<T>, LlmError>)
    ensures r == Success(None) <==> n <= 0
    ensures r.Failure? <==> 0 < n && FailedBefore(attempt, n)
    ensures r.Failure? ==> r.error == RetriesExhausted(op, n, attempt(n - 1).error)
    ensures r.Success? && r.value.Some? ==>
      exists k :: 0 <= k < n && FailedBefore(attempt, k) && attempt(k) == Success(r.value.value)
  {
    var run := Retry(n, attempt);
    match run.outcome
    case NoAttempt => Success(None)
    case Exhausted(e) => Failure(RetriesExhausted(op, n, e))
    case Succeeded(v) => Success(Some(v))
  }

  /** The lookup attempts of `find_latest_checkpoint`: attempt `k` sees
      the listing `listing(k)`. */
  function LookupAttempts(base: string, listing: nat -> seq<Entry>): nat -> Result<string, LlmError> {
    (k: nat) => LatestCheckpointOnce(base, listing(k))
  }

  /** `find_latest_checkpoint`. With no attempt to make the method
      returns `None`. */
  function FindLatestCheckpoint(n: int, base: string, listing: nat -> seq<Entry>): (r: Result<Option<string>, LlmError>)
    ensures r == Success(None) <==> n <= 0
    ensures r.Failure? <==> 0 < n && forall k :: 0 <= k < n ==> LookupAttempts(base, listing)(k).Failure?
    ensures r.Failure? ==>
      r.error == RetriesExhausted(FindCheckpoint, n, LookupAttempts(base, listing)(n - 1).error)
    ensures r.Success? && r.value.Some? ==>
      exists k :: 0 <= k < n && FailedBefore(LookupAttempts(base, listing), k) &&
        LookupAttempts(base, listing)(k) == Success(r.value.value)
  {
    Retried(n, LookupAttempts(base, listing), FindCheckpoint)
  }

  /** The handler: the configured path and retry count, the checkpoint
      whose model and tokenizer are loaded, the initialised flag and the
      generation cache. */
  datatype Llm = Llm(
    modelPath: string,
    maxRetries: int,
    loaded: Option<string>,
    initialised: bool,
    cache: seq<CacheEntry>)

  function NewLlm(modelPath: string, maxRetries: int): (h: Llm)
    ensures !h.initialised && h.loaded.None? && h.cache == []
    ensures h.modelPath == modelPath && h.maxRetries == maxRetries
  {
    Llm(modelPath, maxRetries, None, false, [])
  }

  /** The listings the lookup inside load attempt `k` sees: its lookup
      attempt `j` sees `listing(k, j)`. */
  function ListingOf(listing: (nat, nat) -> seq<Entry>, k: nat): nat -> seq<Entry> {
    (j: nat) => listing(k, j)
  }

  /** One attempt of `load_fine_tuned_model`: a full checkpoint lookup (with
      its own retries) against the file system as it is now, then the
      opaque `loader`. A `None` checkpoint reaches
      `PeftConfig.from_pretrained`, which raises. */
  function LoadAttempt(h: Llm, listing: (nat, nat) -> seq<Entry>, loader: (nat, string) -> Result<(), string>, k: nat): (r: Result<string, LlmError>)
    ensures var found := FindLatestCheckpoint(h.maxRetries, h.modelPath, ListingOf(listing, k));
      && (found.Failure? ==> r == Failure(found.error))
      && (found == Success(None) ==> r == Failure(Upstream("no checkpoint path")))
      && (found.Success? && found.value.Some? ==>
            var loaded := loader(k, found.value.value);
            && (loaded.Success? ==> r == Success(found.value.value))
            && (loaded.Failure? ==> r == Failure(Upstream(loaded.error))))
  {
    match FindLatestCheckpoint(h.maxRetries, h.modelPath, ListingOf(listing, k))
    case Failure(e) => Failure(e)
    case Success(None) => Failure(Upstream("no checkpoint path"))
    case Success(Some(checkpoint)) =>
      match loader(k, checkpoint)
      case Failure(message) => Failure(Upstream(message))
      case Success(_) => Success(checkpoint)
  }

  /** The load attempts as a function of the attempt number. */
  function LoadAttempts(h: Llm, listing: (nat, nat) -> seq<Entry>, loader: (nat, string) -> Result<(), string>): nat -> Result<string, LlmError> {
    (k: nat) => LoadAttempt(h, listing, loader, k)
  }

  /** `load_fine_tuned_model`. On failure the caller keeps the handler it
      had; on success the handler holds the checkpoint of the first
      successful attempt and the flag is set. */
  function Load(h: Llm, listing: (nat, nat) -> seq<Entry>, loader: (nat, string) -> Result<(), string>): (r: Result<Llm, LlmError>)
    ensures h.maxRetries <= 0 ==> r == Success(h)
    ensures r.Failure? <==> 0 < h.maxRetries && FailedBefore(LoadAttempts(h, listing, loader), h.maxRetries)
    ensures r.Failure? ==>
      r.error == RetriesExhausted(LoadModel, h.maxRetries, LoadAttempts(h, listing, loader)(h.maxRetries - 1).error)
    ensures r.Success? && 0 < h.maxRetries ==>
      && r.value == h.(loaded := r.value.loaded, initialised := true)
      && r.value.loaded.Some?
      && exists k :: 0 <= k < h.maxRetries && FailedBefore(LoadAttempts(h, listing, loader), k) &&
           LoadAttempts(h, listing, loader)(k) == Success(r.value.loaded.value)
  {
    var r :- Retried(h.maxRetries, LoadAttempts(h, listing, loader), LoadModel);
    if r.None? then Success(h)
    else Success(h.(loaded := Some(r.value), initialised := true))
  }

  /** When no listing holds a usable checkpoint the load fails after
      exhausting both loops, and the error nests the last lookup's error. */
  lemma LoadFailsWithoutCheckpoints(h: Llm, listing: (nat, nat) -> seq<Entry>, loader: (nat, string) -> Result<(), string>)
    requires 0 < h.maxRetries
    requires forall k, j :: 0 <= k < h.maxRetries && 0 <= j < h.maxRetries ==>
      LatestCheckpointOnce(h.modelPath, listing(k, j)).Failure?
    ensures var n := h.maxRetries;
      Load(h, listing, loader) == Failure(RetriesExhausted(LoadModel, n,
        RetriesExhausted(FindCheckpoint, n, LatestCheckpointOnce(h.modelPath, listing(n - 1, n - 1)).error)))
  {
    var n := h.maxRetries;
    var attempt := LoadAttempts(h, listing, loader);
    forall k: nat | k < n ensures attempt(k).Failure? {
      LoadAttemptWithoutCheckpoints(h, listing, loader, k);
    }
    assert FailedBefore(attempt, n);
    LoadAttemptWithoutCheckpoints(h, listing, loader, n - 1);
  }

  /** A load attempt whose every lookup fails fails with the lookup's
      exhausted-retries error. */
  lemma LoadAttemptWithoutCheckpoints(h: Llm, listing: (nat, nat) -> seq<Entry>, loader: (nat, string) -> Result<(), string>, k: nat)
    requires 0 < h.maxRetries
    requires forall j :: 0 <= j < h.maxRetries ==> LatestCheckpointOnce(h.modelPath, listing(k, j)).Failure?
    ensures LoadAttempt(h, listing, loader, k) == Failure(RetriesExhausted(FindCheckpoint, h.maxRetries,
      LatestCheckpointOnce(h.modelPath, listing(k, h.maxRetries - 1)).error))
  {
    var lookup := LookupAttempts(h.modelPath, ListingOf(listing, k));
    assert forall j :: 0 <= j < h.maxRetries ==> lookup(j) == LatestCheckpointOnce(h.modelPath, listing(k, j));
  }

  /** A lookup whose every attempt finds `c` returns `c`. */
  lemma LookupFindsSteadyCheckpoint(n: int, base: string, listing: nat -> seq<Entry>, c: string)
    requires 0 < n
    requires forall j :: 0 <= j < n ==> LookupAttempts(base, listing)(j) == Success(c)
    ensures FindLatestCheckpoint(n, base, listing) == Success(Some(c))
  {
    assert LookupAttempts(base, listing)(0).Success?;
  }

  /** A load attempt whose lookups all find `c`, and whose loader accepts
      it, yields `c`. */
  lemma LoadAttemptFindsSteadyCheckpoint(h: Llm, listing: (nat, nat) -> seq<Entry>, loader: (nat, string) -> Result<(), string>,
                                         k: nat, c: string)
    requires 0 < h.maxRetries
    requires forall j :: 0 <= j < h.maxRetries ==> LatestCheckpointOnce(h.modelPath, listing(k, j)) == Success(c)
    requires loader(k, c).Success?
    ensures LoadAttempt(h, listing, loader, k) == Success(c)
  {
    var lookup := LookupAttempts(h.modelPath, ListingOf(listing, k));
    assert forall j :: 0 <= j < h.maxRetries ==> lookup(j) == LatestCheckpointOnce(h.modelPath, listing(k, j));
    LookupFindsSteadyCheckpoint(h.maxRetries, h.modelPath, ListingOf(listing, k), c);
  }

  /** The listing with the one directory `checkpoint-5`. */
  lemma SingleCheckpointFound(base: string)
    ensures LatestCheckpointOnce(base, [Entry(CheckpointPrefix + "5", true)]) == Success(CheckpointPath(base, 5))
  {
    var e := Entry(CheckpointPrefix + "5", true);
    assert NatToString(5) == "5";
    CheckpointNumberRoundTrip(5);
    assert NumberOf(e) == Some(5);
    assert MaxNumber([e], NumberOf) == Some(5);
  }

  /** A checkpoint that only appears after the first load attempt failed is
      found and loaded by a later attempt. */
  lemma LaterAttemptSeesNewCheckpoint(h: Llm, listing: (nat, nat) -> seq<Entry>, loader: (nat, string) -> Result<(), string>)
    requires h.maxRetries == 2
    requires forall j: nat :: listing(0, j) == []
    requires forall j: nat :: listing(1, j) == [Entry(CheckpointPrefix + "5", true)]
    requires forall k: nat, c :: loader(k, c).Success?
    ensures Load(h, listing, loader) == Success(h.(loaded := Some(CheckpointPath(h.modelPath, 5)), initialised := true))
  {
    var path := CheckpointPath(h.modelPath, 5);
    LoadAttemptWithoutCheckpoints(h, listing, loader, 0);
    SingleCheckpointFound(h.modelPath);
    LoadAttemptFindsSteadyCheckpoint(h, listing, loader, 1, path);
    var attempt := LoadAttempts(h, listing, loader);
    assert attempt(0).Failure?;
    assert attempt(1) == Success(path);
  }

  /** `close`: drops the model and tokenizer and clears the flag; a
      handler that is not initialised is left as it is. */
  function Close(h: Llm): (r: Llm)
    ensures !r.initialised
    ensures h.initialised ==> r.loaded.None?
    ensures !h.initialised ==> r == h
    ensures r.cache == h.cache && r.modelPath == h.modelPath && r.maxRetries == h.maxRetries
  {
    if h.initialised then h.(loaded := None, initialised := false) else h
  }

  lemma CloseIdempotent(h: Llm)
    ensures Close(Close(h)) == Close(h)
  {
  }

  const OutputMarker: string := "Output:"

  /** The prompt template. */
  function Prompt(instruction: string, input: string): (p: string)
    ensures |p| >= |OutputMarker| && p[|p| - |OutputMarker|..] == OutputMarker
    ensures StartsWith(p, "Instruction: ")
    ensures var i, n := |instruction|, |input|;
      && |p| == i + n + 29
      && p[13..13 + i] == instruction
      && p[13 + i..21 + i] == "\nInput: "
      && p[21 + i..21 + i + n] == input
      && p[21 + i + n..] == "\n" + OutputMarker
  {
    TemplateLayout("Instruction: ", instruction, "\nInput: ", input, "\n" + OutputMarker);
    "Instruction: " + instruction + "\nInput: " + input + ("\n" + OutputMarker)
  }

  /** Where each part of a five-part concatenation sits. */
  lemma TemplateLayout(a: string, b: string, c: string, d: string, e: string)
    ensures var t := a + b + c + d + e;
      && |t| == |a| + |b| + |c| + |d| + |e|
      && t[..|a|] == a
      && t[|a|..|a| + |b|] == b
      && t[|a| + |b|..|a| + |b| + |c|] == c
      && t[|a| + |b| + |c|..|a| + |b| + |c| + |d|] == d
      && t[|a| + |b| + |c| + |d|..] == e
  {
  }

  /** `text.split("Output:")[-1]`: the text after the last marker, or the
      whole text. The marker cannot overlap itself, so the last piece of the
      split starts right after the last occurrence. */
  function AfterLastMarker(text: string): (r: string)
    ensures |r| <= |text| && r == text[|text| - |r|..]
    ensures !OccursWithin(r, OutputMarker, 0, |r|)
    ensures !OccursWithin(text, OutputMarker, 0, |text|) ==> r == text
    ensures OccursWithin(text, OutputMarker, 0, |text|) ==>
      |r| + |OutputMarker| <= |text| && OccursAt(text, OutputMarker, |text| - |r| - |OutputMarker|)
  {
    var p := RFind(text, OutputMarker, 0, |text|);
    if p == -1 then text
    else
      var r := text[p + |OutputMarker|..];
      assert !OccursWithin(r, OutputMarker, 0, |r|) by {
        forall q | 0 <= q && q + |OutputMarker| <= |r| ensures !OccursAt(r, OutputMarker, q) {
          var at := p + |OutputMarker| + q;
          assert r[q..q + |OutputMarker|] == text[at..at + |OutputMarker|];
          assert !OccursAt(text, OutputMarker, at);
        }
      }
      r
  }

  /** A marker-free string has no marker in any piece of it. */
  lemma NoMarkerInSubstring(s: string, a: nat, t: string)
    requires a + |t| <= |s| && s[a..a + |t|] == t
    requires !OccursWithin(s, OutputMarker, 0, |s|)
    ensures !OccursWithin(t, OutputMarker, 0, |t|)
  {
    assert |OutputMarker| == 7;
    forall q: nat | q + |OutputMarker| <= |t| ensures !OccursAt(t, OutputMarker, q) {
      var u, v := t[q..q + |OutputMarker|], s[a + q..a + q + |OutputMarker|];
      forall k | 0 <= k < |u| ensures u[k] == v[k] {
        assert t[q + k] == s[a + q + k];
      }
      assert u == v;
      assert !OccursAt(s, OutputMarker, a + q);
    }
  }

  lemma StrippedHasNoMarker(s: string)
    requires !OccursWithin(s, OutputMarker, 0, |s|)
    ensures !OccursWithin(Strip(s), OutputMarker, 0, |Strip(s)|)
  {
    StripRemovesOnlyOuterSpace(s);
    NoMarkerInSubstring(s, SkipSpaceForward(s, 0), Strip(s));
  }

  /** The reply: the part after the last marker, stripped. It never
      contains the marker. */
  function ExtractReply(decoded: string): (r: string)
    ensures r == Strip(AfterLastMarker(decoded))
    ensures !OccursWithin(r, OutputMarker, 0, |r|)
    ensures r == [] || (!IsSpace(r[0]) && !IsSpace(r[|r| - 1]))
  {
    var tail := AfterLastMarker(decoded);
    StrippedHasNoMarker(tail);
    Strip(tail)
  }

  /** Whatever precedes the last marker, a marker-free generation after it
      is the reply, stripped: the marker cannot overlap itself, so no later
      occurrence starts inside it. */
  lemma {:induction false} ReplyAfterLastMarker(d: string, g: string)
    requires !OccursWithin(g, OutputMarker, 0, |g|)
    ensures ExtractReply(d + OutputMarker + g) == Strip(g)
  {
    var pre := d + OutputMarker;
    var t := pre + g;
    var m := |OutputMarker|;
    var at := |d|;
    assert t[at..at + m] == OutputMarker;
    assert OccursAt(t, OutputMarker, at);
    forall q | at < q && q + m <= |t| ensures !OccursAt(t, OutputMarker, q) {
      if q < at + m {
        assert t[q] == OutputMarker[q - at];
        assert t[q..q + m][0] == t[q];
      } else {
        SliceAfterPrefix(pre, g, q, q + m);
        assert !OccursAt(g, OutputMarker, q - at - m);
      }
    }
    assert RFind(t, OutputMarker, 0, |t|) == at;
    SliceAfterPrefix(pre, g, at + m, |t|);
  }

  /** A slice lying after the prefix `x` is a slice of `y`. */
  lemma SliceAfterPrefix(x: string, y: string, i: nat, j: nat)
    requires |x| <= i <= j <= |x| + |y|
    ensures (x + y)[i..j] == y[i - |x|..j - |x|]
  {
  }

  /** A decoder that echoes the prompt and then generates `g` without the
      marker yields exactly the stripped generation, whatever the
      instruction and input contain. */
  lemma ReplyOfEchoedPrompt(instruction: string, input: string, g: string)
    requires !OccursWithin(g, OutputMarker, 0, |g|)
    ensures ExtractReply(Prompt(instruction, input) + g) == Strip(g)
  {
    var d := "Instruction: " + instruction + "\nInput: " + input + "\n";
    assert Prompt(instruction, input) + g == d + OutputMarker + g;
    ReplyAfterLastMarker(d, g);
  }


  /** One cached call: the key `(instruction, input_text)` and the value
      the call returned (`None` when no attempt was made). */
  datatype CacheEntry = CacheEntry(instruction: string, input: string, reply: Option<string>)

  const CacheCapacity: nat := 100

  predicate SameKey(e: CacheEntry, instruction: string, input: string) {
    e.instruction == instruction && e.input == input
  }

  /** At most `CacheCapacity` entries, at most one per key; ordered from
      least to most recently used. */
  predicate WellFormedCache(cache: seq<CacheEntry>) {
    |cache| <= CacheCapacity && DistinctKeys(cache)
  }

  predicate DistinctKeys(cache: seq<CacheEntry>) {
    forall i, j :: 0 <= i < j < |cache| ==> !SameKey(cache[i], cache[j].instruction, cache[j].input)
  }

  function Lookup(cache: seq<CacheEntry>, instruction: string, input: string): (r: Option<Option<string>>)
    ensures r.None? <==> forall i :: 0 <= i < |cache| ==> !SameKey(cache[i], instruction, input)
    ensures r.Some? ==> exists i :: 0 <= i < |cache| && cache[i] == CacheEntry(instruction, input, r.value)
    decreases |cache|
  {
    if cache == [] then None
    else if SameKey(cache[|cache| - 1], instruction, input) then Some(cache[|cache| - 1].reply)
    else
      var r := Lookup(cache[..|cache| - 1], instruction, input);
      assert forall i :: 0 <= i < |cache| - 1 ==> cache[i] == cache[..|cache| - 1][i];
      r
  }

  /** The cache without the entry for a key. */
  function Remove(cache: seq<CacheEntry>, instruction: string, input: string): (r: seq<CacheEntry>)
    ensures |r| <= |cache|
    ensures forall e :: e in r <==> e in cache && !SameKey(e, instruction, input)
    ensures (forall i :: 0 <= i < |cache| ==> !SameKey(cache[i], instruction, input)) ==> r == cache
    ensures (exists i :: 0 <= i < |cache| && SameKey(cache[i], instruction, input)) ==> |r| < |cache|
    decreases |cache|
  {
    if cache == [] then []
    else
      var rest := Remove(cache[1..], instruction, input);
      assert forall e :: e in cache[1..] ==> e in cache;
      assert forall i :: 1 <= i < |cache| ==> cache[i] == cache[1..][i - 1];
      if SameKey(cache[0], instruction, input) then rest else [cache[0]] + rest
  }

  /** Removing a key keeps the keys of the other entries distinct. */
  lemma {:induction false} RemoveKeepsKeysDistinct(cache: seq<CacheEntry>, instruction: string, input: string)
    requires DistinctKeys(cache)
    ensures DistinctKeys(Remove(cache, instruction, input))
    decreases |cache|
  {
    if cache != [] {
      var tail := cache[1..];
      assert DistinctKeys(tail);
      RemoveKeepsKeysDistinct(tail, instruction, input);
      if !SameKey(cache[0], instruction, input) {
        var rest := Remove(tail, instruction, input);
        HeadKeyNotRemoved(cache, rest);
        ConsKeepsKeysDistinct(cache[0], rest);
      }
    }
  }

  /** In a cache with distinct keys, the first entry's key is not the key
      of any entry drawn from the rest of the cache. */
  lemma HeadKeyNotRemoved(cache: seq<CacheEntry>, rest: seq<CacheEntry>)
    requires cache != [] && DistinctKeys(cache)
    requires forall e :: e in rest ==> e in cache[1..]
    ensures forall j :: 0 <= j < |rest| ==> !SameKey(cache[0], rest[j].instruction, rest[j].input)
  {
    forall j | 0 <= j < |rest| ensures !SameKey(cache[0], rest[j].instruction, rest[j].input) {
      assert rest[j] in cache[1..];
      var k :| 0 <= k < |cache[1..]| && cache[1..][k] == rest[j];
      assert cache[k + 1] == rest[j];
    }
  }

  lemma ConsKeepsKeysDistinct(e: CacheEntry, rest: seq<CacheEntry>)
    requires DistinctKeys(rest)
    requires forall j :: 0 <= j < |rest| ==> !SameKey(e, rest[j].instruction, rest[j].input)
    ensures DistinctKeys([e] + rest)
  {
    var r := [e] + rest;
    forall i, j | 0 <= i < j < |r| ensures !SameKey(r[i], r[j].instruction, r[j].input) {
      assert r[j] == rest[j - 1];
      if i > 0 {
        assert r[i] == rest[i - 1];
      }
    }
  }

  /** `Remove` works entry by entry, so the remaining entries keep their
      order. */
  lemma {:induction false} RemoveAppend(a: seq<CacheEntry>, b: seq<CacheEntry>, instruction: string, input: string)
    ensures Remove(a + b, instruction, input) == Remove(a, instruction, input) + Remove(b, instruction, input)
    decreases |a|
  {
    if a != [] {
      var ab := a + b;
      assert ab[0] == a[0] && ab[1..] == a[1..] + b;
      RemoveAppend(a[1..], b, instruction, input);
      var head := if SameKey(a[0], instruction, input) then [] else [a[0]];
      assert Remove(ab, instruction, input) == head + Remove(ab[1..], instruction, input);
      assert Remove(a, instruction, input) == head + Remove(a[1..], instruction, input);
    } else {
      assert a + b == b;
    }
  }

  /** With distinct keys, removing the key of entry `i` cuts out exactly
      that entry. */
  lemma RemoveAt(cache: seq<CacheEntry>, i: nat, instruction: string, input: string)
    requires DistinctKeys(cache)
    requires i < |cache| && SameKey(cache[i], instruction, input)
    ensures Remove(cache, instruction, input) == cache[..i] + cache[i + 1..]
  {
    var before, after := cache[..i], cache[i + 1..];
    assert cache == before + ([cache[i]] + after);
    RemoveAppend(before, [cache[i]] + after, instruction, input);
    RemoveAppend([cache[i]], after, instruction, input);
    OtherKeysRemain(cache, i, instruction, input);
    assert Remove([cache[i]], instruction, input) == [];
  }

  /** The entries around the one with the key keep their other keys, so
      `Remove` leaves those parts as they are. */
  lemma OtherKeysRemain(cache: seq<CacheEntry>, i: nat, instruction: string, input: string)
    requires DistinctKeys(cache)
    requires i < |cache| && SameKey(cache[i], instruction, input)
    ensures Remove(cache[..i], instruction, input) == cache[..i]
    ensures Remove(cache[i + 1..], instruction, input) == cache[i + 1..]
  {
    var before, after := cache[..i], cache[i + 1..];
    forall j | 0 <= j < |before| ensures !SameKey(before[j], instruction, input) {
      assert before[j] == cache[j];
    }
    forall j | 0 <= j < |after| ensures !SameKey(after[j], instruction, input) {
      assert after[j] == cache[i + 1 + j];
    }
  }

  /** A key's entry is unique in a well-formed cache. */
  lemma LookupFindsUniqueEntry(cache: seq<CacheEntry>, i: nat, instruction: string, input: string)
    requires WellFormedCache(cache)
    requires i < |cache| && SameKey(cache[i], instruction, input)
    ensures Lookup(cache, instruction, input) == Some(cache[i].reply)
  {
  }

  /** The cache after a call with the given entry's key: the entry becomes
      the most recent, and on overflow the least recent entry is evicted. */
  function Record(cache: seq<CacheEntry>, e: CacheEntry): (r: seq<CacheEntry>)
    requires WellFormedCache(cache)
    ensures WellFormedCache(r)
    ensures Lookup(r, e.instruction, e.input) == Some(e.reply)
    ensures |r| >= 1 && r[|r| - 1] == e
    ensures forall d :: d in r ==> d == e || d in cache
    ensures forall i :: 1 <= i < |cache| && !SameKey(cache[i], e.instruction, e.input) ==> cache[i] in r
    ensures |cache| < CacheCapacity || Lookup(cache, e.instruction, e.input).Some? ==>
      forall d :: d in cache && !SameKey(d, e.instruction, e.input) ==> d in r
  {
    var rest := Remove(cache, e.instruction, e.input);
    RemoveKeepsKeysDistinct(cache, e.instruction, e.input);
    var grown := rest + [e];
    AppendKeepsKeysDistinct(rest, e);
    var r := LruUpdate(cache, e);
    assert r[|r| - 1] == e;
    EvictionKeepsOthers(cache, e, rest, r);
    RecordDrawsFromCache(cache, e, rest, r);
    r
  }

  /** The update itself: drop the key's old entry, append the new one, and
      evict the least recent entry on overflow. */
  function LruUpdate(cache: seq<CacheEntry>, e: CacheEntry): seq<CacheEntry> {
    var grown := Remove(cache, e.instruction, e.input) + [e];
    if |grown| > CacheCapacity then grown[1..] else grown
  }

  /** `Record` adds no entry but the new one. */
  lemma RecordDrawsFromCache(cache: seq<CacheEntry>, e: CacheEntry, rest: seq<CacheEntry>, r: seq<CacheEntry>)
    requires rest == Remove(cache, e.instruction, e.input)
    requires r == if |rest + [e]| > CacheCapacity then (rest + [e])[1..] else rest + [e]
    ensures forall d :: d in r ==> d == e || d in cache
  {
    forall d | d in r ensures d == e || d in cache {
      assert d in rest + [e];
    }
  }

  lemma AppendKeepsKeysDistinct(rest: seq<CacheEntry>, e: CacheEntry)
    requires DistinctKeys(rest)
    requires forall d :: d in rest ==> !SameKey(d, e.instruction, e.input)
    ensures DistinctKeys(rest + [e])
    ensures DistinctKeys((rest + [e])[1..])
  {
    var grown := rest + [e];
    forall i, j | 0 <= i < j < |grown| ensures !SameKey(grown[i], grown[j].instruction, grown[j].input) {
      if j == |grown| - 1 {
        assert grown[i] in rest;
      } else {
        assert grown[i] == rest[i] && grown[j] == rest[j];
      }
    }
    var tail := grown[1..];
    forall i, j | 0 <= i < j < |tail| ensures !SameKey(tail[i], tail[j].instruction, tail[j].input) {
      assert tail[i] == grown[i + 1] && tail[j] == grown[j + 1];
    }
  }

  /** Which entries survive `Record`: all but the key's old entry, except
      that an overflow evicts the least recent entry. */
  lemma EvictionKeepsOthers(cache: seq<CacheEntry>, e: CacheEntry, rest: seq<CacheEntry>, r: seq<CacheEntry>)
    requires |cache| <= CacheCapacity
    requires rest == Remove(cache, e.instruction, e.input)
    requires r == if |rest + [e]| > CacheCapacity then (rest + [e])[1..] else rest + [e]
    ensures forall i :: 1 <= i < |cache| && !SameKey(cache[i], e.instruction, e.input) ==> cache[i] in r
    ensures |cache| < CacheCapacity || Lookup(cache, e.instruction, e.input).Some? ==>
      forall d :: d in cache && !SameKey(d, e.instruction, e.input) ==> d in r
  {
    if |rest + [e]| > CacheCapacity {
      FullCacheKeepsAllButFirst(cache, e, rest);
    } else {
      AppendKeepsAll(rest, e);
    }
  }

  /** An overflow only happens when the key was absent, and then it drops
      just the least recent entry. */
  lemma FullCacheKeepsAllButFirst(cache: seq<CacheEntry>, e: CacheEntry, rest: seq<CacheEntry>)
    requires |cache| <= CacheCapacity
    requires rest == Remove(cache, e.instruction, e.input)
    requires |rest| + 1 > CacheCapacity
    ensures rest == cache && |cache| == CacheCapacity
    ensures Lookup(cache, e.instruction, e.input).None?
    ensures forall i :: 1 <= i < |cache| ==> cache[i] in (rest + [e])[1..]
  {
    RemoveNothingWhenNotShorter(cache, e.instruction, e.input);
    DropFirstKeepsTail(cache, e);
  }

  lemma RemoveNothingWhenNotShorter(cache: seq<CacheEntry>, instruction: string, input: string)
    requires |Remove(cache, instruction, input)| >= |cache|
    ensures Remove(cache, instruction, input) == cache
    ensures Lookup(cache, instruction, input).None?
  {
    assert forall i :: 0 <= i < |cache| ==> !SameKey(cache[i], instruction, input);
  }

  lemma DropFirstKeepsTail(cache: seq<CacheEntry>, e: CacheEntry)
    ensures forall i :: 1 <= i < |cache| ==> cache[i] in (cache + [e])[1..]
  {
    var tail := (cache + [e])[1..];
    forall i | 1 <= i < |cache| ensures cache[i] in tail {
      assert tail[i - 1] == cache[i];
    }
  }

  lemma AppendKeepsAll(rest: seq<CacheEntry>, e: CacheEntry)
    ensures forall d :: d in rest ==> d in rest + [e]
  {
  }

  /** `Record` is the `lru_cache` update: a hit moves the key's entry to
      the most recent end with the new value; a miss appends it and, when
      the cache was full, evicts the least recently used entry. */
  lemma RecordIsLru(cache: seq<CacheEntry>, e: CacheEntry)
    requires WellFormedCache(cache)
    ensures forall i :: 0 <= i < |cache| && SameKey(cache[i], e.instruction, e.input) ==>
      Record(cache, e) == cache[..i] + cache[i + 1..] + [e]
    ensures Lookup(cache, e.instruction, e.input).None? && |cache| < CacheCapacity ==>
      Record(cache, e) == cache + [e]
    ensures Lookup(cache, e.instruction, e.input).None? && |cache| == CacheCapacity ==>
      Record(cache, e) == cache[1..] + [e]
  {
    assert Record(cache, e) == LruUpdate(cache, e);
    forall i | 0 <= i < |cache| && SameKey(cache[i], e.instruction, e.input)
      ensures LruUpdate(cache, e) == cache[..i] + cache[i + 1..] + [e]
    {
      LruHit(cache, e, i);
    }
    if Lookup(cache, e.instruction, e.input).None? {
      LruMiss(cache, e);
    }
  }

  lemma LruHit(cache: seq<CacheEntry>, e: CacheEntry, i: nat)
    requires WellFormedCache(cache)
    requires i < |cache| && SameKey(cache[i], e.instruction, e.input)
    ensures LruUpdate(cache, e) == cache[..i] + cache[i + 1..] + [e]
  {
    RemoveAt(cache, i, e.instruction, e.input);
  }

  lemma LruMiss(cache: seq<CacheEntry>, e: CacheEntry)
    requires |cache| <= CacheCapacity
    requires Lookup(cache, e.instruction, e.input).None?
    ensures |cache| < CacheCapacity ==> LruUpdate(cache, e) == cache + [e]
    ensures |cache| == CacheCapacity ==> LruUpdate(cache, e) == cache[1..] + [e]
  {
    RemoveAbsent(cache, e.instruction, e.input);
    var grown := cache + [e];
    assert LruUpdate(cache, e) == if |grown| > CacheCapacity then grown[1..] else grown;
    if |cache| == CacheCapacity {
      DropFirstOfAppend(cache, e);
    }
  }

  lemma DropFirstOfAppend(a: seq<CacheEntry>, x: CacheEntry)
    requires |a| >= 1
    ensures (a + [x])[1..] == a[1..] + [x]
  {
  }

  lemma RemoveAbsent(cache: seq<CacheEntry>, instruction: string, input: string)
    requires Lookup(cache, instruction, input).None?
    ensures Remove(cache, instruction, input) == cache
  {
  }

  /** `generate_fine_tuned_response` without the cache: the guard, then the
      retry loop around prompt, opaque generation and extraction. */
  function GenerateUncached(h: Llm, instruction: string, input: string,
                            generate: (string, nat) -> Result<string, string>): (r: Result<Option<string>, LlmError>)
    ensures !h.initialised ==> r == Failure(NotInitialized)
    ensures h.initialised ==> (r == Success(None) <==> h.maxRetries <= 0)
    ensures h.initialised && r.Failure? ==>
      0 < h.maxRetries &&
      (forall k :: 0 <= k < h.maxRetries ==> generate(Prompt(instruction, input), k).Failure?) &&
      r.error == RetriesExhausted(GenerateResponse, h.maxRetries, Upstream(generate(Prompt(instruction, input), h.maxRetries - 1).error))
    ensures r.Success? && r.value.Some? ==>
      exists k :: 0 <= k < h.maxRetries &&
        (forall j :: 0 <= j < k ==> generate(Prompt(instruction, input), j).Failure?) &&
        generate(Prompt(instruction, input), k).Success? &&
        r.value.value == ExtractReply(generate(Prompt(instruction, input), k).value)
  {
    if !h.initialised then Failure(NotInitialized)
    else
      var prompt := Prompt(instruction, input);
      var r := Retried(h.maxRetries, GenerationAttempts(prompt, generate), GenerateResponse);
      RetriedGeneration(h.maxRetries, prompt, generate, r);
      r
  }

  /** The generation attempts as a function of the attempt number. */
  function GenerationAttempts(prompt: string, generate: (string, nat) -> Result<string, string>): nat -> Result<string, LlmError> {
    (k: nat) => GenerationAttempt(prompt, generate, k)
  }

  /** The retry loop's promises, read back in terms of the opaque
      generation. */
  lemma RetriedGeneration(n: int, prompt: string, generate: (string, nat) -> Result<string, string>,
                          r: Result<Option<string>, LlmError>)
    requires r == Retried(n, GenerationAttempts(prompt, generate), GenerateResponse)
    ensures r.Failure? ==>
      0 < n && (forall k :: 0 <= k < n ==> generate(prompt, k).Failure?) &&
      r.error == RetriesExhausted(GenerateResponse, n, Upstream(generate(prompt, n - 1).error))
    ensures r.Success? && r.value.Some? ==>
      exists k :: 0 <= k < n && (forall j :: 0 <= j < k ==> generate(prompt, j).Failure?) &&
        generate(prompt, k).Success? && r.value.value == ExtractReply(generate(prompt, k).value)
  {
    var attempt := GenerationAttempts(prompt, generate);
    if r.Failure? {
      GenerationFailedBefore(prompt, generate, n);
      assert attempt(n - 1) == GenerationAttempt(prompt, generate, n - 1);
    }
    if r.Success? && r.value.Some? {
      var k :| 0 <= k < n && FailedBefore(attempt, k) && attempt(k) == Success(r.value.value);
      GenerationFailedBefore(prompt, generate, k);
      assert attempt(k) == GenerationAttempt(prompt, generate, k);
    }
  }

  lemma GenerationFailedBefore(prompt: string, generate: (string, nat) -> Result<string, string>, k: nat)
    requires FailedBefore(GenerationAttempts(prompt, generate), k)
    ensures forall j :: 0 <= j < k ==> generate(prompt, j).Failure?
  {
    forall j | 0 <= j < k ensures generate(prompt, j).Failure? {
      assert GenerationAttempts(prompt, generate)(j).Failure?;
    }
  }


  /** One attempt of the generation loop: the opaque generation, then the
      reply extraction; an exception becomes an upstream error. */
  function GenerationAttempt(prompt: string, generate: (string, nat) -> Result<string, string>, k: nat): (r: Result<string, LlmError>)
    ensures r.Failure? <==> generate(prompt, k).Failure?
    ensures r.Failure? ==> r.error == Upstream(generate(prompt, k).error)
    ensures r.Success? ==> r.value == ExtractReply(generate(prompt, k).value)
  {
    match generate(prompt, k)
    case Failure(message) => Failure(Upstream(message))
    case Success(decoded) => Success(ExtractReply(decoded))
  }

  /** The memoised call: a cached key answers at once, before the
      initialised check; otherwise the call runs and only a returned value
      is recorded. Returns the result and the handler with its new cache. */
  function Generate(h: Llm, instruction: string, input: string,
                    generate: (string, nat) -> Result<string, string>): (out: (Result<Option<string>, LlmError>, Llm))
    requires WellFormedCache(h.cache)
    ensures WellFormedCache(out.1.cache)
    ensures out.1.loaded == h.loaded && out.1.initialised == h.initialised
    ensures out.0.Failure? ==> out.1 == h
    ensures out.0.Success? ==> out.1 == h.(cache := Record(h.cache, CacheEntry(instruction, input, out.0.value)))
    ensures out.0.Success? ==> Lookup(out.1.cache, instruction, input) == Some(out.0.value)
    ensures Lookup(h.cache, instruction, input).Some? ==> out.0 == Success(Lookup(h.cache, instruction, input).value)
    ensures Lookup(h.cache, instruction, input).None? ==> out.0 == GenerateUncached(h, instruction, input, generate)
  {
    match Lookup(h.cache, instruction, input)
    case Some(reply) =>
      (Success(reply), h.(cache := Record(h.cache, CacheEntry(instruction, input, reply))))
    case None =>
      var r := GenerateUncached(h, instruction, input, generate);
      if r.Failure? then (r, h)
      else (r, h.(cache := Record(h.cache, CacheEntry(instruction, input, r.value))))
  }

  /** A repeated call returns the first call's value, whatever the model
      would generate the second time. */
  lemma RepeatedCallIsMemoised(h: Llm, instruction: string, input: string,
                               generate1: (string, nat) -> Result<string, string>,
                               generate2: (string, nat) -> Result<string, string>)
    requires WellFormedCache(h.cache)
    requires Generate(h, instruction, input, generate1).0.Success?
    ensures var first := Generate(h, instruction, input, generate1);
            Generate(first.1, instruction, input, generate2).0 == first.0
  {
  }

  /** A cached reply is still returned after `close`, although an uncached
      call on the closed handler fails. */
  lemma CachedReplySurvivesClose(h: Llm, instruction: string, input: string,
                                 generate1: (string, nat) -> Result<string, string>,
                                 generate2: (string, nat) -> Result<string, string>)
    requires WellFormedCache(h.cache)
    requires Generate(h, instruction, input, generate1).0.Success?
    ensures var first := Generate(h, instruction, input, generate1);
            var closed := Close(first.1);
            !closed.initialised && Generate(closed, instruction, input, generate2).0 == first.0
  {
  }

  /** A failed call leaves no trace: the next call runs the model again. */
  lemma FailuresAreNotCached(h: Llm, instruction: string, input: string,
                             generate1: (string, nat) -> Result<string, string>,
                             generate2: (string, nat) -> Result<string, string>)
    requires WellFormedCache(h.cache)
    requires Generate(h, instruction, input, generate1).0.Failure?
    ensures var first := Generate(h, instruction, input, generate1);
            Generate(first.1, instruction, input, generate2).0 == GenerateUncached(h, instruction, input, generate2)
  {
  }
}
