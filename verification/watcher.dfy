/** The hot-folder watcher: a debounce table keyed by file name, driven by
    directory events and timer expiries, and the multipart/form-data body
    (RFC 7578, with the delimiters of section 5.1.1 of RFC 2046) it builds by
    hand for each upload. The file system, timers and `fetch` are the
    environment: events carry what `fs.existsSync` answered, and the step
    functions return the timer and upload actions they would perform. */
module Watcher {
  import opened Common

  /** How long a new file waits before it is uploaded, in milliseconds. */
  const BufferMs: nat := 30000

  /** A `setTimeout` handle. */
  datatype Timer = Timer(n: nat)

  /** `pendingUploads`, the source of fresh timer handles, and the handles
      already spent: cleared by `clearTimeout` or fired. */
  datatype State = State(pending: map<string, Timer>, nextTimer: nat, spent: set<Timer>)

  /** One `fs.watch` callback: the event type, the file name (possibly null),
      and whether the file exists when the callback runs. */
  datatype FsEvent = FsEvent(eventType: string, filename: Option<string>, onDisk: bool)

  /** What a step asks of the environment. */
  datatype Action = Schedule(filename: string, timer: Timer, delayMs: nat) | Cancel(timer: Timer) | Upload(filename: string)

  datatype Step = Step(state: State, actions: seq<Action>)

  const Initial: State := State(map[], 0, {})

  /** Empty or missing names and hidden files are ignored. */
  predicate Ignored(filename: Option<string>) {
    !PresentText(filename) || filename.value[0] == '.'
  }

  /** `handleNewFile`: a tracked name is left alone; an untracked one gets a
      fresh 30 s timer. */
  function HandleNewFile(st: State, name: string): (r: Step)
    ensures name in st.pending ==> r == Step(st, [])
    ensures name !in st.pending ==>
              r.state.pending.Keys == st.pending.Keys + {name}
              && r.actions == [Schedule(name, r.state.pending[name], BufferMs)]
              && r.state.spent == st.spent
              && forall f :: f in st.pending ==> r.state.pending[f] == st.pending[f]
  {
    if name in st.pending then Step(st, [])
    else
      var t := Timer(st.nextTimer);
      Step(State(st.pending[name := t], st.nextTimer + 1, st.spent), [Schedule(name, t, BufferMs)])
  }

  /** The `fs.watch` callback. */
  function OnFsEvent(st: State, ev: FsEvent): (r: Step)
    ensures Ignored(ev.filename) ==> r == Step(st, [])
    ensures ev.eventType != "rename" ==> r == Step(st, [])
    ensures !Ignored(ev.filename) && ev.eventType == "rename" && ev.onDisk ==>
              r == HandleNewFile(st, ev.filename.value)
    ensures !Ignored(ev.filename) && ev.eventType == "rename" && !ev.onDisk ==>
              var name := ev.filename.value;
              r.state.pending == st.pending - {name}
              && r.state.nextTimer == st.nextTimer
              && r.actions == (if name in st.pending then [Cancel(st.pending[name])] else [])
              && r.state.spent == st.spent + (if name in st.pending then {st.pending[name]} else {})
  {
    if Ignored(ev.filename) || ev.eventType != "rename" then Step(st, [])
    else
      var name := ev.filename.value;
      if ev.onDisk then HandleNewFile(st, name)
      else if name in st.pending then
        var t := st.pending[name];
        Step(State(st.pending - {name}, st.nextTimer, st.spent + {t}), [Cancel(t)])
      else Step(st, [])
  }

  /** The timer `t` scheduled for `name` runs out. Only a live handle calls
      back, since a cleared one never fires and none fires twice: the upload
      starts and the name stops being tracked. A spent handle does nothing. */
  function OnTimerFired(st: State, name: string, t: Timer): (r: Step)
    ensures name in st.pending && st.pending[name] == t ==>
              r.state.pending == st.pending - {name}
              && r.state.nextTimer == st.nextTimer
              && r.state.spent == st.spent + {t}
              && r.actions == [Upload(name)]
    ensures !(name in st.pending && st.pending[name] == t) ==> r == Step(st, [])
  {
    if name in st.pending && st.pending[name] == t then
      Step(State(st.pending - {name}, st.nextTimer, st.spent + {t}), [Upload(name)])
    else Step(st, [])
  }

  /** Every tracked name holds a live timer handed out earlier (neither
      cleared nor fired), and no two names share one. */
  predicate Inv(st: State) {
    && (forall f :: f in st.pending ==> st.pending[f].n < st.nextTimer && st.pending[f] !in st.spent)
    && (forall f, g :: f in st.pending && g in st.pending && f != g ==> st.pending[f] != st.pending[g])
    && (forall t :: t in st.spent ==> t.n < st.nextTimer)
  }

  datatype Input = Fs(ev: FsEvent) | Fired(name: string, timer: Timer)

  /** One input, as the watcher reacts to it. */
  function Apply(st: State, input: Input): Step {
    match input
    case Fs(ev) => OnFsEvent(st, ev)
    case Fired(name, t) => OnTimerFired(st, name, t)
  }

  /** Every step keeps the invariant: a cancelled timer is always the
      deleted file's own, and a handle is spent at most once. */
  lemma StepsKeepInv(st: State, input: Input)
    requires Inv(st)
    ensures Inv(Apply(st, input).state)
  {
  }

  /** The watcher over a sequence of inputs: the final state and all the
      actions in order. */
  function Run(st: State, inputs: seq<Input>): (r: Step)
    requires Inv(st)
    ensures Inv(r.state)
    decreases |inputs|
  {
    if inputs == [] then Step(st, [])
    else
      var s := Apply(st, inputs[0]);
      StepsKeepInv(st, inputs[0]);
      var rest := Run(s.state, inputs[1..]);
      Step(rest.state, s.actions + rest.actions)
  }

  /** Editors that emit several creation events for one file still get a
      single timer: the events after the first schedule nothing. */
  lemma {:induction false} RepeatedCreationSchedulesOnce(st: State, name: string, n: nat)
    requires Inv(st)
    requires name != "" && name[0] != '.'
    ensures Run(st, seq(n + 1, _ => Fs(FsEvent("rename", Some(name), true)))) == HandleNewFile(st, name)
    decreases n
  {
    var ev := Fs(FsEvent("rename", Some(name), true));
    var evs := seq(n + 1, _ => ev);
    var first := OnFsEvent(st, ev.ev);
    assert evs[0] == ev;
    assert first == HandleNewFile(st, name);
    if n > 0 {
      assert evs[1..] == seq(n, _ => ev);
      RepeatedCreationSchedulesOnce(first.state, name, n - 1);
      assert HandleNewFile(first.state, name) == Step(first.state, []);
    } else {
      assert evs[1..] == [];
    }
  }

  /** A creation event for `name` that the watcher does not ignore. */
  predicate Creates(input: Input, name: string) {
    input.Fs? && input.ev.eventType == "rename" && input.ev.onDisk && input.ev.filename == Some(name)
  }

  /** An untracked file that is not created again is never uploaded and
      stays untracked, whatever else happens. */
  lemma {:induction false} UntrackedStaysSilent(st: State, inputs: seq<Input>, name: string)
    requires Inv(st) && name !in st.pending
    requires forall k :: 0 <= k < |inputs| ==> !Creates(inputs[k], name)
    ensures Upload(name) !in Run(st, inputs).actions
    ensures name !in Run(st, inputs).state.pending
    decreases |inputs|
  {
    if inputs != [] {
      var s := Apply(st, inputs[0]);
      StepsKeepInv(st, inputs[0]);
      assert !Creates(inputs[0], name);
      assert Upload(name) !in s.actions && name !in s.state.pending;
      forall k | 0 <= k < |inputs[1..]| ensures !Creates(inputs[1..][k], name) {
        assert inputs[1..][k] == inputs[k + 1];
      }
      UntrackedStaysSilent(s.state, inputs[1..], name);
    }
  }

  /** The debounce: a file deleted while its timer is pending is not
      uploaded, unless it is created again. */
  lemma DeletedFileNotUploaded(st: State, name: string, later: seq<Input>)
    requires Inv(st)
    requires name != "" && name[0] != '.'
    requires forall k :: 0 <= k < |later| ==> !Creates(later[k], name)
    ensures Upload(name) !in Run(st, [Fs(FsEvent("rename", Some(name), false))] + later).actions
  {
    var inputs := [Fs(FsEvent("rename", Some(name), false))] + later;
    assert inputs[1..] == later;
    var s := Apply(st, inputs[0]);
    StepsKeepInv(st, inputs[0]);
    UntrackedStaysSilent(s.state, later, name);
  }

  /** A file created and deleted within the buffer: its timer is cleared,
      so the expiry that would have followed uploads nothing. */
  lemma CreatedThenDeletedSilent(st: State, name: string)
    requires Inv(st) && name !in st.pending
    requires name != "" && name[0] != '.'
    ensures var t := Timer(st.nextTimer);
            Run(st, [Fs(FsEvent("rename", Some(name), true)), Fs(FsEvent("rename", Some(name), false)), Fired(name, t)]).actions
              == [Schedule(name, t, BufferMs), Cancel(t)]
  {
    var t := Timer(st.nextTimer);
    var inputs := [Fs(FsEvent("rename", Some(name), true)), Fs(FsEvent("rename", Some(name), false)), Fired(name, t)];
    var s1 := Apply(st, inputs[0]);
    StepsKeepInv(st, inputs[0]);
    assert s1.actions == [Schedule(name, t, BufferMs)] && s1.state.pending[name] == t;
    var s2 := Apply(s1.state, inputs[1]);
    StepsKeepInv(s1.state, inputs[1]);
    assert s2.actions == [Cancel(t)] && name !in s2.state.pending;
    var s3 := Apply(s2.state, inputs[2]);
    assert s3.actions == [];
    assert inputs[1..] == [inputs[1], inputs[2]];
    assert inputs[1..][1..] == [inputs[2]];
    assert inputs[1..][1..][1..] == [];
    StepsKeepInv(s2.state, inputs[2]);
    assert Run(s3.state, []).actions == [];
    assert Run(s2.state, [inputs[2]]).actions == [];
    assert Run(s1.state, [inputs[1], inputs[2]]).actions == [Cancel(t)];
  }

  /** A new file whose timer runs out undisturbed is scheduled once and then
      uploaded once. */
  lemma CreatedFileUploaded(st: State, name: string)
    requires Inv(st) && name !in st.pending
    requires name != "" && name[0] != '.'
    ensures var t := Timer(st.nextTimer);
            Run(st, [Fs(FsEvent("rename", Some(name), true)), Fired(name, t)]).actions
              == [Schedule(name, t, BufferMs), Upload(name)]
  {
    var inputs := [Fs(FsEvent("rename", Some(name), true)), Fired(name, Timer(st.nextTimer))];
    var t := Timer(st.nextTimer);
    var s := Apply(st, inputs[0]);
    assert s.actions == [Schedule(name, t, BufferMs)] && s.state.pending[name] == t;
    StepsKeepInv(st, inputs[0]);
    var s2 := Apply(s.state, inputs[1]);
    assert s2.actions == [Upload(name)];
    StepsKeepInv(s.state, inputs[1]);
    assert inputs[1..] == [inputs[1]];
    assert inputs[1..][1..] == [];
    assert Run(s2.state, []).actions == [];
    assert Run(s.state, inputs[1..]).actions == [Upload(name)];
  }

  // ---------------------------------------------------------------------
  // The request body

  type Byte = b: int | 0 <= b < 256

  /** UTF-8 encoding of one scalar value (`Buffer.from(string)`). */
  function EncodeChar(c: char): (bs: seq<Byte>)
    ensures 1 <= |bs| <= 4
  {
    if c as int < 0x80 then [c as int] else EncodeMulti(c as int)
  }

  /** The two- to four-byte forms, for code points from U+0080 on. */
  function EncodeMulti(cp: int): (bs: seq<Byte>)
    requires 0x80 <= cp < 0x11_0000
    ensures 2 <= |bs| <= 4
    ensures 0xC0 <= bs[0]
    ensures forall k :: 1 <= k < |bs| ==> 0x80 <= bs[k] < 0xC0
  {
    if cp < 0x800 then [0xC0 + cp / 0x40, 0x80 + cp % 0x40]
    else if cp < 0x1_0000 then [0xE0 + cp / 0x1000, 0x80 + (cp / 0x40) % 0x40, 0x80 + cp % 0x40]
    else [0xF0 + cp / 0x4_0000, 0x80 + (cp / 0x1000) % 0x40, 0x80 + (cp / 0x40) % 0x40, 0x80 + cp % 0x40]
  }

  /** Reads a code point back from a two- to four-byte form: the payload
      bits of the lead byte followed by six bits per continuation byte. */
  function DecodeMulti(bs: seq<Byte>): int
    requires 2 <= |bs| <= 4
  {
    var b: seq<int> := bs;
    if |b| == 2 then (b[0] - 0xC0) * 0x40 + (b[1] - 0x80)
    else if |b| == 3 then (b[0] - 0xE0) * 0x1000 + (b[1] - 0x80) * 0x40 + (b[2] - 0x80)
    else (b[0] - 0xF0) * 0x4_0000 + (b[1] - 0x80) * 0x1000 + (b[2] - 0x80) * 0x40 + (b[3] - 0x80)
  }

  /** The multi-byte forms lose nothing: decoding gives the code point back. */
  lemma EncodeMultiRoundTrip(cp: int)
    requires 0x80 <= cp < 0x11_0000
    ensures DecodeMulti(EncodeMulti(cp)) == cp
  {
    assert cp == (cp / 0x40) * 0x40 + cp % 0x40;
    assert cp / 0x40 == (cp / 0x1000) * 0x40 + (cp / 0x40) % 0x40;
    assert cp / 0x1000 == (cp / 0x4_0000) * 0x40 + (cp / 0x1000) % 0x40;
  }

  /** The encodings of the characters, one entry per character. */
  function Encodings(s: string): seq<seq<Byte>> {
    seq(|s|, i requires 0 <= i < |s| => EncodeChar(s[i]))
  }

  function Join(parts: seq<seq<Byte>>): seq<Byte> {
    if parts == [] then [] else parts[0] + Join(parts[1..])
  }

  /** `Buffer.from(s)`: the characters' encodings laid end to end. */
  function Utf8(s: string): seq<Byte> {
    Join(Encodings(s))
  }

  lemma Utf8Cons(s: string)
    requires s != []
    ensures Utf8(s) == EncodeChar(s[0]) + Utf8(s[1..])
  {
    assert Encodings(s)[1..] == Encodings(s[1..]);
  }

  /** Each character takes one to four bytes. */
  lemma {:induction false} Utf8Length(s: string)
    ensures |s| <= |Utf8(s)| <= 4 * |s|
    decreases |s|
  {
    if s != [] {
      Utf8Cons(s);
      Utf8Length(s[1..]);
    }
  }

  lemma {:induction false} Utf8Concat(a: string, b: string)
    ensures Utf8(a + b) == Utf8(a) + Utf8(b)
    decreases |a|
  {
    if a == [] {
      assert a + b == b;
    } else {
      assert (a + b)[0] == a[0];
      assert (a + b)[1..] == a[1..] + b;
      Utf8Cons(a + b);
      Utf8Cons(a);
      Utf8Concat(a[1..], b);
    }
  }

  predicate Ascii(s: string) {
    forall i :: 0 <= i < |s| ==> s[i] as int < 0x80
  }

  /** On ASCII text the encoding is the character codes, one byte each. */
  lemma {:induction false} Utf8Ascii(s: string)
    requires Ascii(s)
    ensures |Utf8(s)| == |s|
    ensures forall i :: 0 <= i < |s| ==> Utf8(s)[i] == s[i] as int
    decreases |s|
  {
    if s != [] {
      assert Ascii(s[1..]) by {
        forall i | 0 <= i < |s| - 1 ensures s[1..][i] as int < 0x80 {
          assert s[1..][i] == s[i + 1];
        }
      }
      Utf8Ascii(s[1..]);
      Utf8Cons(s);
      assert Utf8(s) == [s[0] as int] + Utf8(s[1..]);
      forall i | 0 <= i < |s| ensures Utf8(s)[i] == s[i] as int {
        if i > 0 {
          assert Utf8(s)[i] == Utf8(s[1..])[i - 1];
        }
      }
    }
  }

  /** `'----WebKitFormBoundary' + Math.random().toString(36).substring(2)`. */
  function MakeBoundary(randomDigits: string): (b: string)
    ensures |b| == 22 + |randomDigits|
    ensures b[..22] == "----WebKitFormBoundary" && b[22..] == randomDigits
  {
    "----WebKitFormBoundary" + randomDigits
  }

  predicate Base36(s: string) {
    forall i :: 0 <= i < |s| ==> '0' <= s[i] <= '9' || 'a' <= s[i] <= 'z'
  }

  /** The characters RFC 2046 allows in a boundary (`bchars`). */
  predicate BChar(c: char) {
    || '0' <= c <= '9' || 'a' <= c <= 'z' || 'A' <= c <= 'Z'
    || c in "'()+_,-./:=? "
  }

  /** A boundary as section 5.1.1 of RFC 2046 requires: 1 to 70 `bchars`,
      the last one not a space. */
  predicate ValidBoundary(b: string) {
    && 1 <= |b| <= 70
    && (forall i :: 0 <= i < |b| ==> BChar(b[i]))
    && b[|b| - 1] != ' '
  }

  /** The generated boundary is valid whenever the random part is base-36
      digits of at most 48 characters (a double's base-36 expansion after
      "0." is shorter than that). */
  lemma BoundaryValid(randomDigits: string)
    requires Base36(randomDigits) && |randomDigits| <= 48
    ensures ValidBoundary(MakeBoundary(randomDigits))
  {
    var b := MakeBoundary(randomDigits);
    forall i | 0 <= i < |b| ensures BChar(b[i]) {
      if i >= 22 {
        assert b[i] == randomDigits[i - 22];
      }
    }
  }

  /** The fixed text of the file part's headers. */
  const DispositionPrefix: string := "Content-Disposition: " + "form-data; name=\"file\"; " + "filename=\""
  const DispositionSuffix: string := "\"\r\n"
  const ContentTypeLines: string := "Content-Type: image/jpeg\r\n\r\n"

  /** The part before the file bytes: dash-boundary, CRLF, the two headers
      and the blank line. */
  function Head(boundary: string, filename: string): string {
    "--" + boundary + "\r\n" + DispositionPrefix + filename + DispositionSuffix + ContentTypeLines
  }

  /** The close-delimiter: CRLF, "--", boundary, "--", then a final CRLF. */
  function Tail(boundary: string): string {
    "\r\n--" + boundary + "--\r\n"
  }

  /** `Buffer.concat` of five pieces, each string piece UTF-8 encoded on
      its own. */
  function Frame(open: string, disposition: string, contentType: string, file: seq<Byte>, close: string): seq<Byte> {
    Utf8(open) + Utf8(disposition) + Utf8(contentType) + file + Utf8(close)
  }

  /** The body `uploadFile` builds. */
  function Body(boundary: string, filename: string, file: seq<Byte>): (body: seq<Byte>)
    ensures var h := |Utf8(Head(boundary, filename))|;
            |body| == h + |file| + |Utf8(Tail(boundary))| && body[h .. h + |file|] == file
  {
    assert Head(boundary, filename) == ("--" + boundary + "\r\n") + (DispositionPrefix + filename + DispositionSuffix) + ContentTypeLines;
    FrameSlices("--" + boundary + "\r\n", DispositionPrefix + filename + DispositionSuffix,
                ContentTypeLines, file, Tail(boundary));
    Frame("--" + boundary + "\r\n", DispositionPrefix + filename + DispositionSuffix,
          ContentTypeLines, file, "\r\n--" + boundary + "--\r\n")
  }

  /** Where the pieces of a concatenation of five byte strings sit. */
  lemma {:induction false} Slices(a: seq<Byte>, b: seq<Byte>, c: seq<Byte>, f: seq<Byte>, d: seq<Byte>)
    ensures var body := a + b + c + f + d;
            && body == (a + b + c) + f + d
            && body[|a + b + c| .. |a + b + c| + |f|] == f
            && body[..|a|] == a
            && body[|body| - |d|..] == d
  {
    var body := a + b + c + f + d;
    var h := a + b + c;
    assert body == a + (b + c + f + d);
    assert body == (h + f) + d;
    assert (h + f)[|h|..] == f;
  }

  lemma FrameSlices(open: string, disposition: string, contentType: string, file: seq<Byte>, close: string)
    ensures var body := Frame(open, disposition, contentType, file, close);
            var h := |Utf8(open + disposition + contentType)|;
            && body == Utf8(open + disposition + contentType) + file + Utf8(close)
            && body[h .. h + |file|] == file
            && body[..|Utf8(open)|] == Utf8(open)
            && body[|body| - |Utf8(close)|..] == Utf8(close)
  {
    Utf8Concat(open + disposition, contentType);
    Utf8Concat(open, disposition);
    Slices(Utf8(open), Utf8(disposition), Utf8(contentType), file, Utf8(close));
  }

  /** The body is the encoded head, the file bytes unchanged, and the encoded
      close-delimiter, so the file is found at a fixed offset. */
  lemma BodyFraming(boundary: string, filename: string, file: seq<Byte>)
    ensures Body(boundary, filename, file) == Utf8(Head(boundary, filename)) + file + Utf8(Tail(boundary))
    ensures var h := |Utf8(Head(boundary, filename))|;
            Body(boundary, filename, file)[h .. h + |file|] == file
  {
    var open := "--" + boundary + "\r\n";
    var disposition := DispositionPrefix + filename + DispositionSuffix;
    assert Head(boundary, filename) == open + disposition + ContentTypeLines;
    FrameSlices(open, disposition, ContentTypeLines, file, Tail(boundary));
  }

  /** Encoded sizes of the fixed pieces, all ASCII. */
  lemma FixedPieceSizes()
    ensures |Utf8("--")| == 2 && |Utf8("\r\n")| == 2
    ensures |Utf8("\r\n--")| == 4 && |Utf8("--\r\n")| == 4
    ensures |Utf8(DispositionPrefix)| == 55
    ensures |Utf8(DispositionSuffix)| == 3
    ensures |Utf8(ContentTypeLines)| == 28
  {
    DelimiterPieceSizes();
    DispositionPrefixSize();
    HeaderTailSizes();
  }

  lemma DelimiterPieceSizes()
    ensures |Utf8("--")| == 2 && |Utf8("\r\n")| == 2
    ensures |Utf8("\r\n--")| == 4 && |Utf8("--\r\n")| == 4
  {
    AsciiSize("--");
    AsciiSize("\r\n");
    AsciiSize("\r\n--");
    AsciiSize("--\r\n");
  }

  lemma HeaderTailSizes()
    ensures |Utf8(DispositionSuffix)| == 3
    ensures |Utf8(ContentTypeLines)| == 28
  {
    AsciiSize(DispositionSuffix);
    AsciiSize(ContentTypeLines);
  }

  lemma AsciiSize(s: string)
    requires Ascii(s)
    ensures |Utf8(s)| == |s|
  {
    Utf8Ascii(s);
  }

  lemma DispositionPrefixSize()
    ensures |Utf8(DispositionPrefix)| == 55
  {
    AsciiConcat("Content-Disposition: ", "form-data; name=\"file\"; ");
    AsciiConcat("Content-Disposition: " + "form-data; name=\"file\"; ", "filename=\"");
    AsciiSize(DispositionPrefix);
  }

  lemma AsciiConcat(a: string, b: string)
    requires Ascii(a) && Ascii(b)
    ensures Ascii(a + b)
  {
    forall i | 0 <= i < |a + b| ensures (a + b)[i] as int < 0x80 {
      if i >= |a| {
        assert (a + b)[i] == b[i - |a|];
      }
    }
  }

  /** The declared Content-Length is `finalBuffer.length`: for an ASCII
      boundary, twice the boundary, plus the encoded file name, plus the
      file, plus 98 bytes of fixed framing. */
  lemma ContentLength(boundary: string, filename: string, file: seq<Byte>)
    requires Ascii(boundary)
    ensures |Body(boundary, filename, file)| == 2 * |boundary| + |Utf8(filename)| + |file| + 98
  {
    FixedPieceSizes();
    Utf8Ascii(boundary);
    Utf8Concat("--" + boundary, "\r\n");
    Utf8Concat("--", boundary);
    Utf8Concat(DispositionPrefix + filename, DispositionSuffix);
    Utf8Concat(DispositionPrefix, filename);
    Utf8Concat("\r\n--" + boundary, "--\r\n");
    Utf8Concat("\r\n--", boundary);
  }

  /** The body opens with the dash-boundary line and ends with the
      close-delimiter line of RFC 2046, with no preamble or epilogue. */
  lemma BodyDelimiters(boundary: string, filename: string, file: seq<Byte>)
    ensures var body := Body(boundary, filename, file);
            var open := Utf8("--" + boundary + "\r\n");
            var close := Utf8("\r\n--" + boundary + "--\r\n");
            body[..|open|] == open && body[|body| - |close|..] == close
  {
    FrameSlices("--" + boundary + "\r\n", DispositionPrefix + filename + DispositionSuffix,
                ContentTypeLines, file, "\r\n--" + boundary + "--\r\n");
  }
}
