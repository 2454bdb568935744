/** The `POST` handler of the upload route: the credential and file checks,
    the signed Cloudinary parameters and their canonical signature string,
    the walk-in event upsert and the photo record's status decision. SHA-1,
    the Cloudinary call and the clock are parameters. */
module UploadRoute {
  import opened Common

  /** The Cloudinary folder every upload is filed under. */
  const Folder: string := "project-point_raw"

  /** The three Cloudinary settings read from the environment. */
  datatype Config = Config(cloudName: Option<string>, apiKey: Option<string>, apiSecret: Option<string>)

  /** All three settings are truthy. */
  predicate Configured(c: Config) {
    PresentText(c.cloudName) && PresentText(c.apiKey) && PresentText(c.apiSecret)
  }

  /** What `formData.get('file')` returned: nothing, a text field, or a file. */
  datatype FileField = NoField | TextField(text: string) | Blob(name: string, bytes: seq<int>)

  /** `!file` is false: a file object is always truthy, a text field when non-empty. */
  predicate HasFile(f: FileField) {
    f.Blob? || (f.TextField? && f.text != "")
  }

  datatype Form = Form(file: FileField, customerId: Option<string>)

  /** `request.formData()`: the fields, or the error it threw. */
  datatype FormParse = Unparsable(message: string) | Parsed(form: Form)

  // ---------------------------------------------------------------------
  // Timestamp

  /** `Math.round(ms / 1000)`: the nearest whole second, halves rounded up. */
  function RoundSeconds(ms: int): (t: int)
    ensures t * 1000 - 500 <= ms < t * 1000 + 500
  {
    (ms + 500) / 1000
  }

  /** Exactly one whole second is that near, so the rounding is determined. */
  lemma RoundSecondsUnique(ms: int, t: int)
    requires t * 1000 - 500 <= ms < t * 1000 + 500
    ensures t == RoundSeconds(ms)
  {
  }

  predicate IsDigit(c: char) {
    '0' <= c <= '9'
  }

  /** Decimal digits of `n`, most significant first, no leading zero
      (`Number.prototype.toString()` on a non-negative integer). */
  function NatToString(n: nat): (s: string)
    ensures |s| >= 1
    ensures forall i :: 0 <= i < |s| ==> IsDigit(s[i])
    ensures s[0] == '0' ==> n == 0
  {
    var d := ['0' + (n % 10) as char];
    if n < 10 then d else NatToString(n / 10) + d
  }

  /** `timestamp.toString()`, a minus sign before a negative value. */
  function IntToString(i: int): (s: string)
    ensures |s| >= 1
    ensures i >= 0 <==> s[0] != '-'
  {
    if i < 0 then "-" + NatToString(-i) else NatToString(i)
  }

  /** The value of a string of decimal digits. */
  function ParseNat(s: string): nat
    requires forall i :: 0 <= i < |s| ==> IsDigit(s[i])
  {
    if s == [] then 0
    else
      var last := s[|s| - 1];
      assert IsDigit(last);
      ParseNat(s[..|s| - 1]) * 10 + (last as int - '0' as int)
  }

  /** Reading the digits back gives the number. */
  lemma {:induction false} NatToStringRoundTrip(n: nat)
    ensures ParseNat(NatToString(n)) == n
  {
    var s := NatToString(n);
    if n >= 10 {
      NatToStringRoundTrip(n / 10);
      assert s[..|s| - 1] == NatToString(n / 10);
    }
  }

  lemma NatToStringInjective(m: nat, n: nat)
    requires NatToString(m) == NatToString(n)
    ensures m == n
  {
    NatToStringRoundTrip(m);
    NatToStringRoundTrip(n);
  }

  /** Different instants in different seconds are signed with different
      timestamps. */
  lemma IntToStringInjective(a: int, b: int)
    requires IntToString(a) == IntToString(b)
    ensures a == b
  {
    if a < 0 && b < 0 {
      assert NatToString(-a) == IntToString(a)[1..];
      assert NatToString(-b) == IntToString(b)[1..];
      NatToStringInjective(-a, -b);
    } else if a >= 0 && b >= 0 {
      NatToStringInjective(a, b);
    }
  }

  // ---------------------------------------------------------------------
  // Signature string

  /** `a < b` as `Array.prototype.sort` compares strings: code unit by code
      unit, a proper prefix first. */
  predicate Below(a: string, b: string)
    decreases |a|
  {
    if a == [] then b != []
    else b != [] && (a[0] < b[0] || (a[0] == b[0] && Below(a[1..], b[1..])))
  }

  lemma {:induction false} BelowIrreflexive(a: string)
    ensures !Below(a, a)
    decreases |a|
  {
    if a != [] {
      BelowIrreflexive(a[1..]);
    }
  }

  lemma {:induction false} BelowTransitive(a: string, b: string, c: string)
    requires Below(a, b) && Below(b, c)
    ensures Below(a, c)
    decreases |a|
  {
    if a != [] && a[0] == b[0] && b[0] == c[0] {
      BelowTransitive(a[1..], b[1..], c[1..]);
    }
  }

  lemma {:induction false} BelowTotal(a: string, b: string)
    requires a != b
    ensures Below(a, b) || Below(b, a)
    decreases |a|
  {
    if a != [] && b != [] && a[0] == b[0] {
      assert a == [a[0]] + a[1..] && b == [b[0]] + b[1..];
      BelowTotal(a[1..], b[1..]);
    }
  }

  lemma BelowAsymmetric(a: string, b: string)
    requires Below(a, b)
    ensures !Below(b, a)
  {
    if Below(b, a) {
      BelowTransitive(a, b, a);
      BelowIrreflexive(a);
    }
  }

  /** Strictly ascending: every earlier key is below every later one. */
  predicate Ascending(s: seq<string>) {
    forall i, j :: 0 <= i < j < |s| ==> Below(s[i], s[j])
  }

  predicate Distinct(s: seq<string>) {
    forall i, j :: 0 <= i < j < |s| ==> s[i] != s[j]
  }

  /** One insertion step of the sort. */
  function InsertKey(k: string, s: seq<string>): (r: seq<string>)
    requires Ascending(s) && k !in s
    ensures Ascending(r)
    ensures multiset(r) == multiset(s) + multiset{k}
  {
    if s == [] then [k]
    else if Below(k, s[0]) then
      forall j | 0 <= j < |s| ensures Below(k, s[j]) {
        if j > 0 {
          BelowTransitive(k, s[0], s[j]);
        }
      }
      [k] + s
    else
      BelowTotal(k, s[0]);
      assert s == [s[0]] + s[1..];
      var rest := InsertKey(k, s[1..]);
      forall x | x in rest ensures Below(s[0], x) {
        assert x in multiset(rest);
        if x != k {
          assert x in multiset(s[1..]);
          var j :| 0 <= j < |s[1..]| && s[1..][j] == x;
          assert s[j + 1] == x;
        }
      }
      [s[0]] + rest
  }

  /** `Object.keys(params).sort()`: the keys, distinct as an object's keys
      are, in ascending order. */
  function SortKeys(keys: seq<string>): (r: seq<string>)
    requires Distinct(keys)
    ensures Ascending(r)
    ensures multiset(r) == multiset(keys)
  {
    if keys == [] then []
    else
      DistinctTail(keys);
      var rest := SortKeys(keys[1..]);
      assert keys == [keys[0]] + keys[1..];
      InsertKey(keys[0], rest)
  }

  lemma DistinctTail(keys: seq<string>)
    requires Distinct(keys) && keys != []
    ensures Distinct(keys[1..])
    ensures keys[0] !in multiset(keys[1..])
  {
  }

  /** The first key of an ascending sequence is below every other one. */
  lemma HeadIsLeast(a: seq<string>, x: string)
    requires Ascending(a) && x in multiset(a) && x != a[0]
    ensures Below(a[0], x)
  {
    var i :| 0 <= i < |a| && a[i] == x;
  }

  /** Two ascending arrangements of the same keys are the same sequence. */
  lemma {:induction false} AscendingUnique(a: seq<string>, b: seq<string>)
    requires Ascending(a) && Ascending(b)
    requires multiset(a) == multiset(b)
    ensures a == b
    decreases |a|
  {
    if a == [] {
      assert |b| == |multiset(b)| == 0;
    } else {
      SameHead(a, b);
      AscendingTail(a);
      AscendingTail(b);
      SameTailKeys(a, b);
      AscendingUnique(a[1..], b[1..]);
      assert a == [a[0]] + a[1..] && b == [b[0]] + b[1..];
    }
  }

  lemma SameHead(a: seq<string>, b: seq<string>)
    requires Ascending(a) && Ascending(b)
    requires multiset(a) == multiset(b) && a != []
    ensures b != [] && a[0] == b[0]
  {
    assert a[0] in multiset(b);
    assert b[0] in multiset(a);
    if a[0] != b[0] {
      HeadIsLeast(a, b[0]);
      HeadIsLeast(b, a[0]);
      BelowAsymmetric(a[0], b[0]);
      assert false;
    }
  }

  lemma AscendingTail(a: seq<string>)
    requires Ascending(a) && a != []
    ensures Ascending(a[1..])
  {
    forall i, j | 0 <= i < j < |a[1..]| ensures Below(a[1..][i], a[1..][j]) {
      assert a[1..][i] == a[i + 1] && a[1..][j] == a[j + 1];
    }
  }

  lemma SameTailKeys(a: seq<string>, b: seq<string>)
    requires a != [] && b != [] && a[0] == b[0]
    requires multiset(a) == multiset(b)
    ensures multiset(a[1..]) == multiset(b[1..])
  {
    assert a == [a[0]] + a[1..];
    assert b == [b[0]] + b[1..];
    assert multiset(a) == multiset{a[0]} + multiset(a[1..]);
    assert multiset(b) == multiset{b[0]} + multiset(b[1..]);
    assert multiset(a[1..]) == multiset(a) - multiset{a[0]};
    assert multiset(b[1..]) == multiset(b) - multiset{b[0]};
  }

  /** `key=value` for each key, joined with `&`. */
  function Pairs(keys: seq<string>, values: map<string, string>): (s: string)
    requires forall k :: k in keys ==> k in values
    ensures s == "" <==> keys == []
    ensures keys != [] ==>
              var first := keys[0] + "=" + values[keys[0]];
              |first| <= |s| && s[..|first|] == first
              && (|keys| > 1 <==> |first| < |s|)
              && (|keys| > 1 ==> s[|first|] == '&')
  {
    if keys == [] then ""
    else
      var first := keys[0] + "=" + values[keys[0]];
      if |keys| == 1 then first else first + "&" + Pairs(keys[1..], values)
  }

  /** The string whose SHA-1 is the signature: the sorted `key=value` pairs
      joined with `&`, then the API secret. */
  function SignatureInput(keys: seq<string>, values: map<string, string>, secret: string): (s: string)
    requires Distinct(keys)
    requires forall k :: k in keys ==> k in values
    ensures |secret| <= |s| && s[|s| - |secret|..] == secret
    ensures keys == [] ==> s == secret
    ensures keys != [] ==> |s| > |secret|
  {
    var sorted := SortKeys(keys);
    assert forall k :: k in sorted ==> k in multiset(keys);
    Pairs(sorted, values) + secret
  }

  /** The signature does not depend on the order in which the parameters
      were declared. */
  lemma SignatureInputOrderFree(k1: seq<string>, k2: seq<string>, values: map<string, string>, secret: string)
    requires Distinct(k1) && Distinct(k2)
    requires multiset(k1) == multiset(k2)
    requires forall k :: k in k1 ==> k in values
    ensures forall k :: k in k2 ==> k in values
    ensures SignatureInput(k1, values, secret) == SignatureInput(k2, values, secret)
  {
    assert forall k :: k in k2 ==> k in multiset(k1);
    AscendingUnique(SortKeys(k1), SortKeys(k2));
  }

  /** The signed parameters, in the order the object literal declares them. */
  function SignedKeys(): seq<string> {
    ["timestamp", "folder"]
  }

  function SignedValues(timestamp: string): map<string, string> {
    map["timestamp" := timestamp, "folder" := Folder]
  }

  /** For the route's two parameters the signed string is
      `folder=project-point_raw&timestamp=<ts><secret>`. */
  lemma UploadSignatureInput(timestamp: string, secret: string)
    ensures SignatureInput(SignedKeys(), SignedValues(timestamp), secret)
            == "folder=" + Folder + "&timestamp=" + timestamp + secret
  {
    SignedKeysSorted();
    SignedPairs(timestamp);
  }

  lemma SignedKeysSorted()
    ensures SortKeys(SignedKeys()) == ["folder", "timestamp"]
  {
    var sorted := ["folder", "timestamp"];
    assert Below("folder", "timestamp");
    assert Ascending(sorted);
    assert multiset(sorted) == multiset(SignedKeys());
    AscendingUnique(SortKeys(SignedKeys()), sorted);
  }

  lemma SignedPairs(timestamp: string)
    ensures Pairs(["folder", "timestamp"], SignedValues(timestamp)) == "folder=" + Folder + "&timestamp=" + timestamp
  {
    var values := SignedValues(timestamp);
    assert values["folder"] == Folder && values["timestamp"] == timestamp;
    var second := Pairs(["timestamp"], values);
    assert second == "timestamp" + "=" + timestamp;
    assert "folder" + "=" == "folder=";
    assert "timestamp" + "=" == "timestamp=";
    assert ["folder", "timestamp"][1..] == ["timestamp"];
    assert Pairs(["folder", "timestamp"], values) == "folder=" + Folder + "&" + second;
    assert "&" + ("timestamp=" + timestamp) == "&timestamp=" + timestamp;
  }

  // ---------------------------------------------------------------------
  // The request

  /** The multipart fields sent to `/v1_1/<cloud>/image/upload`. */
  datatype CloudRequest = CloudRequest(
    cloudName: string, file: FileField, apiKey: string,
    timestamp: string, signature: string, folder: string)

  /** Cloudinary's answer: the stored image, a non-ok response with its
      optional `error.message`, or the error `fetch`/`response.json()` threw. */
  datatype CloudReply =
    | Stored(secureUrl: string, publicId: string, format: string, width: int, height: int)
    | Rejected(errorMessage: Option<string>)
    | Unreachable(message: string)

  datatype PhotoStatus = Approved | PendingReview

  datatype Photo = Photo(
    url: string, publicId: string, format: string, width: int, height: int,
    status: PhotoStatus, eventId: string, customerId: Option<string>)

  datatype EventRow = EventRow(id: string, name: string, kind: string)

  datatype Response = Misconfigured | MissingFile | Failed(message: string) | Saved(photo: Photo)

  /** The HTTP status each response is sent with. */
  function StatusCode(r: Response): (code: int)
    ensures code == 200 <==> r.Saved?
    ensures code == 400 <==> r.MissingFile?
    ensures !r.Saved? && !r.MissingFile? ==> code == 500
  {
    match r
    case Misconfigured => 500
    case MissingFile => 400
    case Failed(_) => 500
    case Saved(_) => 200
  }

  /** The response, the request sent to Cloudinary if any, and the events
      table afterwards. */
  datatype Outcome = Outcome(response: Response, sent: Option<CloudRequest>, events: map<string, EventRow>)

  /** `error.message || fallback`. */
  function MessageOr(message: string, fallback: string): (m: string)
    requires fallback != ""
    ensures m != ""
    ensures message != "" ==> m == message
    ensures message == "" ==> m == fallback
  {
    if message != "" then message else fallback
  }

  /** `prisma.event.upsert` with an empty update: create the row when the id
      is new, otherwise leave the table alone. */
  function Upsert(events: map<string, EventRow>, row: EventRow): (r: map<string, EventRow>)
    ensures row.id in r
    ensures r[row.id] == if row.id in events then events[row.id] else row
    ensures forall id :: id != row.id ==> (id in r <==> id in events)
    ensures forall id :: id in events ==> id in r && r[id] == events[id]
  {
    if row.id in events then events else events[row.id := row]
  }

  /** Upserting the same event twice is the same as once. */
  lemma UpsertIdempotent(events: map<string, EventRow>, row: EventRow, again: EventRow)
    requires again.id == row.id
    ensures Upsert(Upsert(events, row), again) == Upsert(events, row)
  {
  }

  /** The walk-in event row created for a day. */
  function WalkInRow(dateStr: string): (row: EventRow)
    ensures row.id == WalkInSlug(dateStr)
    ensures row.name == "Walk-in (" + dateStr + ")"
    ensures row.kind == "FIELD"
  {
    EventRow(WalkInSlug(dateStr), "Walk-in (" + dateStr + ")", "FIELD")
  }

  /** The photo status and stored customer: approved and linked exactly when
      the form's `customerId` is truthy. */
  function Decide(customerId: Option<string>): (r: (PhotoStatus, Option<string>))
    ensures r.0 == Approved <==> PresentText(customerId)
    ensures r.1.Some? <==> r.0 == Approved
    ensures r.1.Some? ==> r.1 == customerId
  {
    if PresentText(customerId) then (Approved, customerId) else (PendingReview, None)
  }

  /** The signed request for a file at the instant `nowMs`. */
  function BuildRequest(config: Config, file: FileField, nowMs: int, sha1: string -> string): (req: CloudRequest)
    requires Configured(config)
    ensures req.timestamp == IntToString(RoundSeconds(nowMs))
    ensures req.folder == Folder
    ensures req.signature == sha1("folder=" + Folder + "&timestamp=" + req.timestamp + config.apiSecret.value)
    ensures req.apiKey == config.apiKey.value && req.cloudName == config.cloudName.value
    ensures req.file == file
  {
    var ts := IntToString(RoundSeconds(nowMs));
    UploadSignatureInput(ts, config.apiSecret.value);
    var sig := sha1(SignatureInput(SignedKeys(), SignedValues(ts), config.apiSecret.value));
    CloudRequest(config.cloudName.value, file, config.apiKey.value, ts, sig, Folder)
  }

  /** The route, from the credential check to the stored photo. */
  function Post(
    config: Config, request: FormParse, nowMs: int, dateStr: string,
    sha1: string -> string, cloud: CloudRequest -> CloudReply,
    events: map<string, EventRow>): (o: Outcome)
    ensures !Configured(config) ==> o == Outcome(Misconfigured, None, events)
    ensures Configured(config) && request.Parsed? && !HasFile(request.form.file) ==>
              o == Outcome(MissingFile, None, events)
    ensures request.Unparsable? ==> o.sent.None? && o.events == events && !o.response.Saved?
    ensures o.sent.Some? <==> Configured(config) && request.Parsed? && HasFile(request.form.file)
    ensures o.sent.Some? ==> o.sent.value == BuildRequest(config, request.form.file, nowMs, sha1)
    ensures o.response.Saved? <==> o.sent.Some? && cloud(o.sent.value).Stored?
    ensures !o.response.Saved? ==> o.events == events
    ensures o.response.Saved? ==>
              var p := o.response.photo;
              var reply := cloud(o.sent.value);
              && p.eventId == WalkInSlug(dateStr)
              && p.eventId in o.events
              && o.events == Upsert(events, WalkInRow(dateStr))
              && (p.status == Approved <==> PresentText(request.form.customerId))
              && (p.customerId == if PresentText(request.form.customerId) then request.form.customerId else None)
              && p.url == reply.secureUrl && p.publicId == reply.publicId
    ensures o.response.Failed? ==> o.response.message != ""
    ensures Configured(config) && request.Unparsable? ==>
              o.response == Failed(MessageOr(request.message, "Internal Server Error"))
    ensures o.sent.Some? && cloud(o.sent.value).Unreachable? ==>
              o.response == Failed(MessageOr(cloud(o.sent.value).message, "Internal Server Error"))
    ensures o.sent.Some? && cloud(o.sent.value).Rejected? ==>
              var em := cloud(o.sent.value).errorMessage;
              o.response == Failed(if PresentText(em) then em.value else "Cloudinary upload failed")
  {
    if !Configured(config) then Outcome(Misconfigured, None, events)
    else if request.Unparsable? then
      Outcome(Failed(MessageOr(request.message, "Internal Server Error")), None, events)
    else if !HasFile(request.form.file) then Outcome(MissingFile, None, events)
    else
      var req := BuildRequest(config, request.form.file, nowMs, sha1);
      match cloud(req)
      case Unreachable(message) =>
        Outcome(Failed(MessageOr(message, "Internal Server Error")), Some(req), events)
      case Rejected(errorMessage) =>
        var m := if PresentText(errorMessage) then errorMessage.value else "Cloudinary upload failed";
        Outcome(Failed(m), Some(req), events)
      case Stored(url, publicId, format, width, height) =>
        var row := WalkInRow(dateStr);
        var decision := Decide(request.form.customerId);
        var photo := Photo(url, publicId, format, width, height, decision.0, row.id, decision.1);
        Outcome(Saved(photo), Some(req), Upsert(events, row))
  }

  /** A retried upload on the same day reuses the walk-in event the first one
      created: the second save leaves the events table as the first left it. */
  lemma SameDayUploadsShareEvent(
    config: Config, r1: FormParse, r2: FormParse, t1: int, t2: int, dateStr: string,
    sha1: string -> string, cloud: CloudRequest -> CloudReply, events: map<string, EventRow>)
    requires Post(config, r1, t1, dateStr, sha1, cloud, events).response.Saved?
    ensures var first := Post(config, r1, t1, dateStr, sha1, cloud, events);
            var second := Post(config, r2, t2, dateStr, sha1, cloud, first.events);
            second.events == first.events
  {
    var first := Post(config, r1, t1, dateStr, sha1, cloud, events);
    UpsertIdempotent(events, WalkInRow(dateStr), WalkInRow(dateStr));
  }
}
