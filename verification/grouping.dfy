/** The grouping engine of the batch processor: after the scan and the sort,
    one left-to-right pass splits the image stream on separator images (those
    whose QR payload is truthy) into groups `{subjectId, qrImage, photos}`. */
module Grouping {
  import opened Common

  /** The part of a browser `File` the pipeline reads, with the object's
      identity: two files picked from different folders may share a name
      and a modification time and still be different files. */
  datatype File = File(handle: nat, name: string, lastModified: int)

  /** One scanned file: its resolved capture timestamp (epoch milliseconds)
      and the QR payload found on it, if any. */
  datatype Image = Image(file: File, timestamp: int, qrData: Option<string>)

  /** What `JSON.parse(payload)` followed by reading `.id`, `.type` and `.name`
      yields: a parse error, a value whose fields cannot be read or are all
      absent (a number, a string, `null`, an array), or an object whose three
      fields are the given values (`JUndefined` when missing). */
  datatype Parsed = Invalid | NonObject | Object(id: JsVal, typ: JsVal, name: JsVal)

  /** The JSON parser, an oracle of the model. */
  type Parser = string -> Parsed

  /** The separator token a payload stands for: structured when it parses as
      an object with a truthy `id`, `type` or `name`, raw text otherwise. */
  datatype Token = Structured(id: JsVal, name: JsVal, typ: JsVal) | Raw(text: string)

  /** A group of the output: the separator that opened it (absent only for
      the leading bucket) and the plain photos that followed it. */
  datatype Group = Group(subjectId: JsVal, qrImage: Option<Image>, photos: seq<Image>)

  /** The subject of the leading group, before any separator was seen. */
  const Unknown: JsVal := JStr("UNKNOWN")

  /** An image opens a new group exactly when its payload is truthy: a null
      payload and an empty one both leave it a plain photo. */
  predicate IsSeparator(img: Image)
    ensures img.qrData == None || img.qrData == Some("") ==> !IsSeparator(img)
    ensures IsSeparator(img) ==> img.qrData.Some? && |img.qrData.value| > 0
  {
    PresentText(img.qrData)
  }

  /** The payload of a separator image. */
  function PayloadOf(img: Image): string
    requires IsSeparator(img)
  {
    img.qrData.value
  }

  function Classify(text: string, parsed: Parsed): (t: Token)
    ensures t.Structured? <==>
              parsed.Object? && (Truthy(parsed.id) || Truthy(parsed.typ) || Truthy(parsed.name))
    ensures t.Structured? ==> t.id == parsed.id && t.name == parsed.name && t.typ == parsed.typ
    ensures t.Raw? ==> t.text == text
  {
    match parsed
    case Object(id, typ, name) =>
      if Truthy(id) || Truthy(typ) || Truthy(name) then Structured(id, name, typ) else Raw(text)
    case _ => Raw(text)
  }

  /** The subject label a payload gives its group: `name || id` for a
      structured token, the payload itself otherwise. */
  function SubjectOf(text: string, parse: Parser): (subject: JsVal)
    ensures parse(text).Object? && Truthy(parse(text).name) ==> subject == parse(text).name
    ensures (parse(text).Object? && !Truthy(parse(text).name)
             && (Truthy(parse(text).id) || Truthy(parse(text).typ))) ==> subject == parse(text).id
    ensures !parse(text).Object? ==> subject == JStr(text)
    ensures (parse(text).Object?
             && !(Truthy(parse(text).id) || Truthy(parse(text).typ) || Truthy(parse(text).name)))
            ==> subject == JStr(text)
  {
    match Classify(text, parse(text))
    case Structured(id, name, _) => Or(name, id)
    case Raw(t) => JStr(t)
  }

  /** A payload object whose only truthy field is `type` still counts as a
      system QR, and labels its group with its falsy `id` (typically
      `undefined`) rather than with the payload text. */
  lemma TypeOnlyPayloadLabelsUndefined(text: string, parse: Parser)
    requires parse(text).Object?
    requires Truthy(parse(text).typ) && !Truthy(parse(text).id) && !Truthy(parse(text).name)
    ensures Classify(text, parse(text)).Structured?
    ensures SubjectOf(text, parse) == parse(text).id
    ensures !Truthy(SubjectOf(text, parse))
    ensures text != "" ==> SubjectOf(text, parse) != JStr(text)
  {
  }

  /** The separator anchoring a group together with its photos, in stream order. */
  function Members(g: Group): seq<Image> {
    (if g.qrImage.Some? then [g.qrImage.value] else []) + g.photos
  }

  /** The images of all groups in order. */
  function Flatten(gs: seq<Group>): seq<Image> {
    if gs == [] then [] else Members(gs[0]) + Flatten(gs[1..])
  }

  /** A group as the engine may emit it: never empty, photos are plain,
      an anchor is a separator and names the subject, and an anchorless
      group is the "UNKNOWN" bucket. */
  predicate GoodGroup(g: Group, parse: Parser) {
    && (g.qrImage.Some? || |g.photos| > 0)
    && OpenGroup(g, parse)
  }

  /** Everything `GoodGroup` asks except non-emptiness: the state of the
      accumulator while the pass is running. */
  predicate OpenGroup(g: Group, parse: Parser) {
    && (forall j :: 0 <= j < |g.photos| ==> !IsSeparator(g.photos[j]))
    && match g.qrImage
       case None => g.subjectId == Unknown
       case Some(a) => IsSeparator(a) && g.subjectId == SubjectOf(PayloadOf(a), parse)
  }

  /** Every group is good and only the first may lack a separator. */
  predicate WellFormed(gs: seq<Group>, parse: Parser) {
    forall i :: 0 <= i < |gs| ==> GoodGroup(gs[i], parse) && (i > 0 ==> gs[i].qrImage.Some?)
  }

  /** Emits the accumulator unless it holds neither a separator nor a photo. */
  function Seal(done: seq<Group>, cur: Group): (r: seq<Group>)
    ensures |done| <= |r| <= |done| + 1 && r[..|done|] == done
    ensures |r| == |done| + 1 <==> Members(cur) != []
    ensures |r| == |done| + 1 ==> r[|done|] == cur
  {
    if |cur.photos| > 0 || cur.qrImage.Some? then done + [cur] else done
  }

  lemma {:induction false} FlattenAppend(gs: seq<Group>, g: Group)
    ensures Flatten(gs + [g]) == Flatten(gs) + Members(g)
    decreases |gs|
  {
    if gs == [] {
      assert [g][1..] == [];
    } else {
      assert (gs + [g])[0] == gs[0];
      assert (gs + [g])[1..] == gs[1..] + [g];
      FlattenAppend(gs[1..], g);
    }
  }

  lemma SealFlatten(done: seq<Group>, cur: Group)
    ensures Flatten(Seal(done, cur)) == Flatten(done) + Members(cur)
  {
    FlattenAppend(done, cur);
    if !(|cur.photos| > 0 || cur.qrImage.Some?) {
      assert Members(cur) == [];
    }
  }

  /** The `forEach` over the sorted images: `done` holds the groups already
      pushed and `cur` the accumulator; the result is what is pushed by the
      end of the pass, including the final flush. */
  function Walk(rest: seq<Image>, cur: Group, done: seq<Group>, parse: Parser): (gs: seq<Group>)
    requires WellFormed(done, parse)
    requires OpenGroup(cur, parse)
    requires |done| > 0 ==> cur.qrImage.Some?
    ensures WellFormed(gs, parse)
    ensures Flatten(gs) == Flatten(done) + Members(cur) + rest
    decreases |rest|
  {
    if rest == [] then
      SealFlatten(done, cur);
      SealWellFormed(done, cur, parse);
      Seal(done, cur)
    else if IsSeparator(rest[0]) then
      var next := Group(SubjectOf(PayloadOf(rest[0]), parse), Some(rest[0]), []);
      SeparatorStep(rest, cur, done, parse);
      Walk(rest[1..], next, Seal(done, cur), parse)
    else
      var grown := cur.(photos := cur.photos + [rest[0]]);
      GrowStep(rest, cur, done, parse);
      Walk(rest[1..], grown, done, parse)
  }

  /** A separator seals the accumulator and opens a group anchored on it. */
  lemma SeparatorStep(rest: seq<Image>, cur: Group, done: seq<Group>, parse: Parser)
    requires WellFormed(done, parse)
    requires OpenGroup(cur, parse)
    requires |done| > 0 ==> cur.qrImage.Some?
    requires rest != [] && IsSeparator(rest[0])
    ensures var next := Group(SubjectOf(PayloadOf(rest[0]), parse), Some(rest[0]), []);
            && WellFormed(Seal(done, cur), parse)
            && OpenGroup(next, parse)
            && Flatten(Seal(done, cur)) + Members(next) + rest[1..] == Flatten(done) + Members(cur) + rest
  {
    var img := rest[0];
    var next := Group(SubjectOf(PayloadOf(img), parse), Some(img), []);
    SealFlatten(done, cur);
    SealWellFormed(done, cur, parse);
    assert Members(next) == [img];
    ShiftHead(Flatten(done) + Members(cur), rest);
  }

  /** Moving the head of `rest` to the end of the prefix. */
  lemma ShiftHead(prefix: seq<Image>, rest: seq<Image>)
    requires rest != []
    ensures prefix + [rest[0]] + rest[1..] == prefix + rest
  {
    assert rest == [rest[0]] + rest[1..];
  }

  /** A photo joins the accumulator. */
  lemma GrowStep(rest: seq<Image>, cur: Group, done: seq<Group>, parse: Parser)
    requires OpenGroup(cur, parse)
    requires rest != [] && !IsSeparator(rest[0])
    ensures var grown := cur.(photos := cur.photos + [rest[0]]);
            && OpenGroup(grown, parse)
            && grown.qrImage == cur.qrImage
            && Flatten(done) + Members(grown) + rest[1..] == Flatten(done) + Members(cur) + rest
  {
    GrowOpen(cur, rest[0], parse);
    assert rest == [rest[0]] + rest[1..];
  }

  lemma GrowOpen(cur: Group, img: Image, parse: Parser)
    requires OpenGroup(cur, parse) && !IsSeparator(img)
    ensures OpenGroup(cur.(photos := cur.photos + [img]), parse)
    ensures Members(cur.(photos := cur.photos + [img])) == Members(cur) + [img]
  {
    var grown := cur.(photos := cur.photos + [img]);
    forall j | 0 <= j < |grown.photos| ensures !IsSeparator(grown.photos[j]) {
      if j < |cur.photos| {
        assert grown.photos[j] == cur.photos[j];
      }
    }
  }

  lemma SealWellFormed(done: seq<Group>, cur: Group, parse: Parser)
    requires WellFormed(done, parse)
    requires OpenGroup(cur, parse)
    requires |done| > 0 ==> cur.qrImage.Some?
    ensures WellFormed(Seal(done, cur), parse)
  {
    var out := Seal(done, cur);
    forall i | 0 <= i < |out|
      ensures GoodGroup(out[i], parse) && (i > 0 ==> out[i].qrImage.Some?)
    {
      if i < |done| {
        assert out[i] == done[i];
      }
    }
  }

  /** The grouping of `processFiles`: the groups are well formed and,
      concatenated, give back the sorted images exactly. */
  function GroupImages(images: seq<Image>, parse: Parser): (gs: seq<Group>)
    ensures WellFormed(gs, parse)
    ensures Flatten(gs) == images
    ensures forall i :: 0 <= i < |gs| ==> gs[i].qrImage.Some? || |gs[i].photos| > 0
    ensures forall i :: 0 < i < |gs| ==> gs[i].qrImage.Some?
  {
    var start := Group(Unknown, None, []);
    assert Members(start) == [];
    Walk(images, start, [], parse)
  }

  /** Number of plain photos at the head of `s`. */
  function RunLen(s: seq<Image>): (n: nat)
    ensures n <= |s|
  {
    if s == [] || IsSeparator(s[0]) then 0 else 1 + RunLen(s[1..])
  }

  lemma {:induction false} RunLenConcat(p: seq<Image>, q: seq<Image>)
    requires forall j :: 0 <= j < |p| ==> !IsSeparator(p[j])
    requires q == [] || IsSeparator(q[0])
    ensures RunLen(p + q) == |p|
    decreases |p|
  {
    if p != [] {
      assert (p + q)[0] == p[0];
      assert (p + q)[1..] == p[1..] + q;
      RunLenConcat(p[1..], q);
    } else {
      assert p + q == q;
    }
  }

  /** In a well-formed partition the first group's size is decided by the
      stream alone: the separator (if the stream starts with one) plus the
      run of plain photos that follows. */
  lemma FirstGroupSize(gs: seq<Group>, parse: Parser)
    requires WellFormed(gs, parse)
    requires gs != []
    ensures gs[0].qrImage.Some? <==> IsSeparator(Flatten(gs)[0])
    ensures |Members(gs[0])| == (if gs[0].qrImage.Some? then 1 + RunLen(Flatten(gs)[1..])
                                 else RunLen(Flatten(gs)))
  {
    var g := gs[0];
    var tail := Flatten(gs[1..]);
    assert GoodGroup(g, parse);
    if gs[1..] != [] {
      assert gs[1..][0] == gs[1];
      assert GoodGroup(gs[1], parse) && gs[1].qrImage.Some?;
      assert tail[0] == gs[1].qrImage.value;
    }
    assert tail == [] || IsSeparator(tail[0]);
    RunLenConcat(g.photos, tail);
    if g.qrImage.Some? {
      assert Flatten(gs) == [g.qrImage.value] + (g.photos + tail);
      assert Flatten(gs)[1..] == g.photos + tail;
    } else {
      assert Flatten(gs) == g.photos + tail;
      assert Flatten(gs)[0] == g.photos[0];
    }
  }

  lemma TailWellFormed(gs: seq<Group>, parse: Parser)
    requires WellFormed(gs, parse) && gs != []
    ensures WellFormed(gs[1..], parse)
    ensures forall i :: 0 <= i < |gs[1..]| ==> gs[1..][i].qrImage.Some?
  {
    forall i | 0 <= i < |gs[1..]|
      ensures GoodGroup(gs[1..][i], parse) && gs[1..][i].qrImage.Some?
    {
      assert gs[1..][i] == gs[i + 1];
    }
  }

  lemma FlattenNonEmpty(gs: seq<Group>, parse: Parser)
    requires WellFormed(gs, parse)
    ensures gs != [] ==> |Flatten(gs)| > 0
  {
    if gs != [] {
      assert GoodGroup(gs[0], parse);
    }
  }

  /** A group is determined by its members and whether it is anchored. */
  lemma GroupFromMembers(g: Group, h: Group, parse: Parser)
    requires GoodGroup(g, parse) && GoodGroup(h, parse)
    requires Members(g) == Members(h)
    requires g.qrImage.Some? == h.qrImage.Some?
    ensures g == h
  {
    if g.qrImage.Some? {
      assert g.qrImage.value == Members(g)[0] == h.qrImage.value;
      assert g.photos == Members(g)[1..] == h.photos;
    } else {
      assert g.photos == Members(g) == h.photos;
    }
  }

  /** The partition is unique: two well-formed group sequences that flatten
      to the same stream are equal. So `GroupImages` is characterised by its
      ensures clauses alone. */
  lemma {:induction false} PartitionUnique(images: seq<Image>, a: seq<Group>, b: seq<Group>, parse: Parser)
    requires WellFormed(a, parse) && WellFormed(b, parse)
    requires Flatten(a) == images && Flatten(b) == images
    ensures a == b
    decreases |images|
  {
    if a == [] || b == [] {
      FlattenNonEmpty(a, parse);
      FlattenNonEmpty(b, parse);
    } else {
      FirstGroupSize(a, parse);
      FirstGroupSize(b, parse);
      var n := |Members(a[0])|;
      assert images == Members(a[0]) + Flatten(a[1..]);
      assert images == Members(b[0]) + Flatten(b[1..]);
      assert Members(a[0]) == images[..n] == Members(b[0]);
      assert GoodGroup(a[0], parse) && GoodGroup(b[0], parse);
      GroupFromMembers(a[0], b[0], parse);
      assert Flatten(a[1..]) == images[n..] == Flatten(b[1..]);
      TailWellFormed(a, parse);
      TailWellFormed(b, parse);
      PartitionUnique(images[n..], a[1..], b[1..], parse);
      assert a == [a[0]] + a[1..];
      assert b == [b[0]] + b[1..];
    }
  }

  /** `GroupImages` is the one well-formed partition of its input. */
  lemma GroupImagesCharacterised(images: seq<Image>, gs: seq<Group>, parse: Parser)
    ensures (WellFormed(gs, parse) && Flatten(gs) == images) <==> gs == GroupImages(images, parse)
  {
    if WellFormed(gs, parse) && Flatten(gs) == images {
      PartitionUnique(images, gs, GroupImages(images, parse), parse);
    }
  }

  /** No separator in the input: a single "UNKNOWN" group holding every
      image, or no group at all for an empty input. */
  lemma NoSeparatorsOneGroup(images: seq<Image>, parse: Parser)
    requires forall i :: 0 <= i < |images| ==> !IsSeparator(images[i])
    ensures images == [] ==> GroupImages(images, parse) == []
    ensures images != [] ==> GroupImages(images, parse) == [Group(Unknown, None, images)]
  {
    var gs := GroupImages(images, parse);
    var expected: seq<Group> := if images == [] then [] else [Group(Unknown, None, images)];
    if images != [] {
      assert Flatten(expected) == Members(expected[0]) + Flatten([]);
      assert WellFormed(expected, parse);
    }
    PartitionUnique(images, gs, expected, parse);
  }

  /** One singleton group per separator image, in order. */
  function Singletons(images: seq<Image>, parse: Parser): (gs: seq<Group>)
    requires forall i :: 0 <= i < |images| ==> IsSeparator(images[i])
    ensures |gs| == |images|
    ensures forall i :: 0 <= i < |gs| ==>
              gs[i] == Group(SubjectOf(PayloadOf(images[i]), parse), Some(images[i]), [])
  {
    if images == [] then []
    else [Group(SubjectOf(PayloadOf(images[0]), parse), Some(images[0]), [])]
         + Singletons(images[1..], parse)
  }

  lemma {:induction false} SingletonsPartition(images: seq<Image>, parse: Parser)
    requires forall i :: 0 <= i < |images| ==> IsSeparator(images[i])
    ensures Flatten(Singletons(images, parse)) == images
    ensures WellFormed(Singletons(images, parse), parse)
    decreases |images|
  {
    var gs := Singletons(images, parse);
    forall i | 0 <= i < |gs| ensures GoodGroup(gs[i], parse) {
      assert IsSeparator(images[i]);
    }
    if images != [] {
      assert gs[1..] == Singletons(images[1..], parse);
      SingletonsPartition(images[1..], parse);
      assert Members(gs[0]) == [images[0]];
      assert Flatten(gs) == [images[0]] + Flatten(gs[1..]);
      assert images == [images[0]] + images[1..];
    }
  }

  /** Every image a separator: N singleton groups, each anchored by its own
      separator with no photos; back-to-back separators never merge. */
  lemma AllSeparatorsSingletons(images: seq<Image>, parse: Parser)
    requires forall i :: 0 <= i < |images| ==> IsSeparator(images[i])
    ensures |GroupImages(images, parse)| == |images|
    ensures forall i :: 0 <= i < |images| ==>
              GroupImages(images, parse)[i]
                == Group(SubjectOf(PayloadOf(images[i]), parse), Some(images[i]), [])
  {
    SingletonsPartition(images, parse);
    PartitionUnique(images, GroupImages(images, parse), Singletons(images, parse), parse);
  }

  /** Every separator in the stream anchors exactly the group it opens: the
      anchors, in order, are the separators of the input. */
  function Anchors(gs: seq<Group>): seq<Image> {
    if gs == [] then []
    else (if gs[0].qrImage.Some? then [gs[0].qrImage.value] else []) + Anchors(gs[1..])
  }

  function Separators(s: seq<Image>): seq<Image> {
    if s == [] then []
    else (if IsSeparator(s[0]) then [s[0]] else []) + Separators(s[1..])
  }

  lemma {:induction false} SeparatorsConcat(p: seq<Image>, q: seq<Image>)
    ensures Separators(p + q) == Separators(p) + Separators(q)
    decreases |p|
  {
    if p == [] {
      assert p + q == q;
    } else {
      var head := if IsSeparator(p[0]) then [p[0]] else [];
      assert (p + q)[0] == p[0];
      assert (p + q)[1..] == p[1..] + q;
      assert Separators(p + q) == head + Separators(p[1..] + q);
      SeparatorsConcat(p[1..], q);
      assert head + (Separators(p[1..]) + Separators(q)) == (head + Separators(p[1..])) + Separators(q);
    }
  }

  lemma {:induction false} NoSeparatorsIn(p: seq<Image>)
    requires forall j :: 0 <= j < |p| ==> !IsSeparator(p[j])
    ensures Separators(p) == []
    decreases |p|
  {
    if p != [] {
      NoSeparatorsIn(p[1..]);
    }
  }

  lemma {:induction false} AnchorsAreSeparators(gs: seq<Group>, parse: Parser)
    requires forall i :: 0 <= i < |gs| ==> GoodGroup(gs[i], parse)
    ensures Anchors(gs) == Separators(Flatten(gs))
    decreases |gs|
  {
    if gs != [] {
      var g := gs[0];
      assert GoodGroup(g, parse);
      forall i | 0 <= i < |gs[1..]| ensures GoodGroup(gs[1..][i], parse) {
        assert gs[1..][i] == gs[i + 1];
      }
      AnchorsAreSeparators(gs[1..], parse);
      SeparatorsConcat(Members(g), Flatten(gs[1..]));
      NoSeparatorsIn(g.photos);
      if g.qrImage.Some? {
        var a := g.qrImage.value;
        assert Members(g) == [a] + g.photos;
        SeparatorsConcat([a], g.photos);
        assert [a][1..] == [];
        assert Separators([a]) == [a];
        assert Separators(Members(g)) == [a];
      } else {
        assert Members(g) == g.photos;
      }
    }
  }

  /** Group count: one group per separator, plus the leading "UNKNOWN"
      bucket exactly when the stream starts with plain photos. */
  lemma GroupCount(images: seq<Image>, parse: Parser)
    ensures |GroupImages(images, parse)|
            == |Separators(images)| + (if RunLen(images) > 0 then 1 else 0)
  {
    var gs := GroupImages(images, parse);
    AnchorsAreSeparators(gs, parse);
    AnchorCount(gs, parse);
    if gs != [] {
      FirstGroupSize(gs, parse);
      assert GoodGroup(gs[0], parse);
    } else {
      assert images == [];
    }
  }

  lemma {:induction false} AnchorCount(gs: seq<Group>, parse: Parser)
    requires WellFormed(gs, parse)
    ensures |Anchors(gs)| == |gs| - (if gs != [] && gs[0].qrImage.None? then 1 else 0)
    decreases |gs|
  {
    if gs != [] {
      TailWellFormed(gs, parse);
      AnchorCountAllAnchored(gs[1..]);
    }
  }

  lemma {:induction false} AnchorCountAllAnchored(gs: seq<Group>)
    requires forall i :: 0 <= i < |gs| ==> gs[i].qrImage.Some?
    ensures |Anchors(gs)| == |gs|
    decreases |gs|
  {
    if gs != [] {
      AnchorCountAllAnchored(gs[1..]);
    }
  }
}
