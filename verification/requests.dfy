/**
 * The four request values the program sends to the flashcard service
 * (`AddNotes`, `FindNotes`, `CreateDeck`, `DeckName` in the source), their
 * constructors, and their JSON shape as serde's derived `Serialize` and
 * `Deserialize` lay it out (field renames included).
 */
module Requests {
  import opened Wrappers
  import opened Json

  /** Rust's `u32`, the type of every request's `version` field. */
  newtype u32 = x: int | 0 <= x < 0x1_0000_0000

  /** The protocol version every constructor stamps on its request. */
  const ProtocolVersion: u32 := 6

  /** A media attachment (`Audio`, `Video` and `Picture` share this shape). */
  datatype Media = Media(url: string, filename: string, skipHash: string, fields: seq<string>)

  /** The `Front` and `Back` fields of a note. */
  datatype NoteFields = NoteFields(front: string, back: string)

  /** One note of an `addNotes` request. */
  datatype Note = Note(
    deckName: string,
    modelName: string,
    fields: NoteFields,
    tags: Option<seq<string>>,
    audio: Option<seq<Media>>,
    video: Option<seq<Media>>,
    picture: Option<seq<Media>>)

  /** One variant per request struct; `params` are flattened into each variant. */
  datatype Request =
    | AddNotes(action: string, version: u32, notes: seq<Note>)
    | FindNotes(action: string, version: u32, query: string)
    | CreateDeck(action: string, version: u32, deck: string)
    | DeckNames(action: string, version: u32)

  /** `AddNotes::new`: a request adding one "Basic" note with the given deck, front and back. */
  function NewAddNotes(deckName: string, front: string, back: string): (r: Request)
    ensures r.AddNotes? && r.action == "addNotes" && r.version == ProtocolVersion
    ensures |r.notes| == 1
    ensures r.notes[0].deckName == deckName
    ensures r.notes[0].modelName == "Basic"
    ensures r.notes[0].fields.front == front && r.notes[0].fields.back == back
    ensures r.notes[0].tags.None? && r.notes[0].audio.None?
    ensures r.notes[0].video.None? && r.notes[0].picture.None?
  {
    AddNotes("addNotes", ProtocolVersion,
      [Note(deckName, "Basic", NoteFields(front, back), None, None, None, None)])
  }

  /** `FindNotes::new`: a search request carrying `query` verbatim. */
  function NewFindNotes(query: string): (r: Request)
    ensures r.FindNotes? && r.action == "findNotes" && r.version == ProtocolVersion
    ensures r.query == query
  {
    FindNotes("findNotes", ProtocolVersion, query)
  }

  /** `CreateDeck::new`: a request creating the deck named `deck`. */
  function NewCreateDeck(deck: string): (r: Request)
    ensures r.CreateDeck? && r.action == "createDeck" && r.version == ProtocolVersion
    ensures r.deck == deck
  {
    CreateDeck("createDeck", ProtocolVersion, deck)
  }

  /** `DeckName::new`: the request listing every deck with its id. */
  function NewDeckNames(): (r: Request)
    ensures r.DeckNames? && r.action == "deckNamesAndIds" && r.version == ProtocolVersion
  {
    DeckNames("deckNamesAndIds", ProtocolVersion)
  }

  // ---------------------------------------------------------------------
  // JSON shape
  // ---------------------------------------------------------------------

  /** A sequence serialized element by element. */
  function EncodeList<T>(xs: seq<T>, enc: T -> Json): (r: seq<Json>)
    ensures |r| == |xs|
    ensures forall i | 0 <= i < |xs| :: r[i] == enc(xs[i])
  {
    if |xs| == 0 then [] else [enc(xs[0])] + EncodeList(xs[1..], enc)
  }

  /** A sequence deserialized element by element; fails if any element fails. */
  function DecodeList<T>(js: seq<Json>, dec: Json -> Option<T>): (r: Option<seq<T>>)
    ensures r.Some? ==> |r.value| == |js|
  {
    if |js| == 0 then Some([])
    else match (dec(js[0]), DecodeList(js[1..], dec))
      case (Some(x), Some(xs)) => Some([x] + xs)
      case _ => None
  }

  /** Decoding undoes encoding element-wise once it does so for each element. */
  lemma {:induction false} DecodeEncodeList<T>(xs: seq<T>, enc: T -> Json, dec: Json -> Option<T>)
    requires forall i | 0 <= i < |xs| :: dec(enc(xs[i])) == Some(xs[i])
    ensures DecodeList(EncodeList(xs, enc), dec) == Some(xs)
  {
    if |xs| > 0 {
      var js := EncodeList(xs, enc);
      assert js[1..] == EncodeList(xs[1..], enc);
      assert forall i | 0 <= i < |xs[1..]| :: dec(enc(xs[1..][i])) == Some(xs[1..][i]) by {
        forall i | 0 <= i < |xs[1..]| ensures dec(enc(xs[1..][i])) == Some(xs[1..][i]) {
          assert xs[1..][i] == xs[i + 1];
        }
      }
      DecodeEncodeList(xs[1..], enc, dec);
      assert [xs[0]] + xs[1..] == xs;
    }
  }

  function EncodeString(s: string): Json { JStr(s) }

  function DecodeString(j: Json): Option<string> {
    if j.JStr? then Some(j.s) else None
  }

  /** `None` is written as `null`, `Some(xs)` as an array. */
  function EncodeOptionalList<T>(o: Option<seq<T>>, enc: T -> Json): Json {
    match o
    case None => JNull
    case Some(xs) => JArr(EncodeList(xs, enc))
  }

  /** Reads an optional list the way serde does: a missing member or `null` is `None`. */
  function DecodeOptionalList<T>(v: Option<Json>, dec: Json -> Option<T>): Option<Option<seq<T>>> {
    match v
    case None => Some(None)
    case Some(JNull) => Some(None)
    case Some(JArr(items)) =>
      (match DecodeList(items, dec)
       case Some(xs) => Some(Some(xs))
       case None => None)
    case Some(_) => None
  }

  lemma DecodeEncodeOptionalList<T>(o: Option<seq<T>>, enc: T -> Json, dec: Json -> Option<T>)
    requires o.Some? ==> forall i | 0 <= i < |o.value| :: dec(enc(o.value[i])) == Some(o.value[i])
    ensures DecodeOptionalList(Some(EncodeOptionalList(o, enc)), dec) == Some(o)
  {
    if o.Some? {
      DecodeEncodeList(o.value, enc, dec);
    }
  }

  function EncodeMedia(m: Media): Json {
    JObj(map[
      "url" := JStr(m.url),
      "filename" := JStr(m.filename),
      "skipHash" := JStr(m.skipHash),
      "fields" := JArr(EncodeList(m.fields, EncodeString))])
  }

  function DecodeMedia(j: Json): Option<Media> {
    match (Get(j, "url"), Get(j, "filename"), Get(j, "skipHash"), Get(j, "fields"))
    case (Some(JStr(url)), Some(JStr(filename)), Some(JStr(skipHash)), Some(JArr(fields))) =>
      (match DecodeList(fields, DecodeString)
       case Some(fs) => Some(Media(url, filename, skipHash, fs))
       case None => None)
    case _ => None
  }

  lemma DecodeEncodeMedia(m: Media)
    ensures DecodeMedia(EncodeMedia(m)) == Some(m)
  {
    DecodeEncodeList(m.fields, EncodeString, DecodeString);
  }

  /** A note with serde's renames: `deckName`, `modelName`, `Front`, `Back`. */
  function EncodeNote(n: Note): Json {
    JObj(map[
      "deckName" := JStr(n.deckName),
      "modelName" := JStr(n.modelName),
      "fields" := JObj(map["Front" := JStr(n.fields.front), "Back" := JStr(n.fields.back)]),
      "tags" := EncodeOptionalList(n.tags, EncodeString),
      "audio" := EncodeOptionalList(n.audio, EncodeMedia),
      "video" := EncodeOptionalList(n.video, EncodeMedia),
      "picture" := EncodeOptionalList(n.picture, EncodeMedia)])
  }

  function DecodeFields(j: Json): Option<NoteFields> {
    match (Get(j, "Front"), Get(j, "Back"))
    case (Some(JStr(front)), Some(JStr(back))) => Some(NoteFields(front, back))
    case _ => None
  }

  function DecodeNote(j: Json): Option<Note> {
    match (Get(j, "deckName"), Get(j, "modelName"), Get(j, "fields"))
    case (Some(JStr(deckName)), Some(JStr(modelName)), Some(fj)) =>
      (match (DecodeFields(fj),
              DecodeOptionalList(Get(j, "tags"), DecodeString),
              DecodeOptionalList(Get(j, "audio"), DecodeMedia),
              DecodeOptionalList(Get(j, "video"), DecodeMedia),
              DecodeOptionalList(Get(j, "picture"), DecodeMedia))
       case (Some(fields), Some(tags), Some(audio), Some(video), Some(picture)) =>
         Some(Note(deckName, modelName, fields, tags, audio, video, picture))
       case _ => None)
    case _ => None
  }

  /** The members of an encoded note, as the decoder looks them up. */
  lemma EncodeNoteMembers(n: Note)
    ensures var j := EncodeNote(n);
      && Get(j, "deckName") == Some(JStr(n.deckName))
      && Get(j, "modelName") == Some(JStr(n.modelName))
      && Get(j, "fields") == Some(JObj(map["Front" := JStr(n.fields.front), "Back" := JStr(n.fields.back)]))
      && Get(j, "tags") == Some(EncodeOptionalList(n.tags, EncodeString))
      && Get(j, "audio") == Some(EncodeOptionalList(n.audio, EncodeMedia))
      && Get(j, "video") == Some(EncodeOptionalList(n.video, EncodeMedia))
      && Get(j, "picture") == Some(EncodeOptionalList(n.picture, EncodeMedia))
  {
  }

  /** A note is read back from any object whose members decode to its parts. */
  lemma DecodeNoteParts(j: Json, n: Note)
    requires Get(j, "deckName") == Some(JStr(n.deckName))
    requires Get(j, "modelName") == Some(JStr(n.modelName))
    requires Get(j, "fields").Some? && DecodeFields(Get(j, "fields").value) == Some(n.fields)
    requires DecodeOptionalList(Get(j, "tags"), DecodeString) == Some(n.tags)
    requires DecodeOptionalList(Get(j, "audio"), DecodeMedia) == Some(n.audio)
    requires DecodeOptionalList(Get(j, "video"), DecodeMedia) == Some(n.video)
    requires DecodeOptionalList(Get(j, "picture"), DecodeMedia) == Some(n.picture)
    ensures DecodeNote(j) == Some(n)
  {
  }

  lemma DecodeEncodeNote(n: Note)
    ensures DecodeNote(EncodeNote(n)) == Some(n)
  {
    EncodeNoteMembers(n);
    var fj := JObj(map["Front" := JStr(n.fields.front), "Back" := JStr(n.fields.back)]);
    assert DecodeFields(fj) == Some(n.fields);
    DecodeEncodeTags(n.tags);
    DecodeEncodeAttachments(n.audio);
    DecodeEncodeAttachments(n.video);
    DecodeEncodeAttachments(n.picture);
    DecodeNoteParts(EncodeNote(n), n);
  }

  lemma DecodeEncodeTags(o: Option<seq<string>>)
    ensures DecodeOptionalList(Some(EncodeOptionalList(o, EncodeString)), DecodeString) == Some(o)
  {
    DecodeEncodeOptionalList(o, EncodeString, DecodeString);
  }

  lemma DecodeEncodeAttachments(o: Option<seq<Media>>)
    ensures DecodeOptionalList(Some(EncodeOptionalList(o, EncodeMedia)), DecodeMedia) == Some(o)
  {
    if o.Some? {
      forall i | 0 <= i < |o.value| ensures DecodeMedia(EncodeMedia(o.value[i])) == Some(o.value[i]) {
        DecodeEncodeMedia(o.value[i]);
      }
    }
    DecodeEncodeOptionalList(o, EncodeMedia, DecodeMedia);
  }

  /** The members every request has: `action` and `version`. */
  function Head(action: string, version: u32): map<string, Json> {
    map["action" := JStr(action), "version" := JNum(version as int)]
  }

  /**
   * A request as serde serializes it: `action`, `version`, and a `params`
   * object holding exactly the struct's parameter fields; the deck listing
   * has no `params` member at all.
   */
  function Encode(r: Request): (j: Json)
    ensures j.JObj? && "action" in j.members && j.members["action"] == JStr(r.action)
    ensures "version" in j.members && j.members["version"] == JNum(r.version as int)
    ensures j.members.Keys <= {"action", "version", "params"}
    ensures "params" in j.members <==> !r.DeckNames?
    ensures r.FindNotes? ==> j.members["params"] == JObj(map["query" := JStr(r.query)])
    ensures r.CreateDeck? ==> j.members["params"] == JObj(map["deck" := JStr(r.deck)])
    ensures r.AddNotes? ==>
      j.members["params"] == JObj(map["notes" := JArr(EncodeList(r.notes, EncodeNote))])
  {
    match r
    case AddNotes(action, version, notes) =>
      JObj(Head(action, version)["params" := JObj(map["notes" := JArr(EncodeList(notes, EncodeNote))])])
    case FindNotes(action, version, query) =>
      JObj(Head(action, version)["params" := JObj(map["query" := JStr(query)])])
    case CreateDeck(action, version, deck) =>
      JObj(Head(action, version)["params" := JObj(map["deck" := JStr(deck)])])
    case DeckNames(action, version) =>
      JObj(Head(action, version))
  }

  /** Reads a request back, telling the structs apart by the shape of `params`. */
  function Decode(j: Json): Option<Request> {
    match (Get(j, "action"), Get(j, "version"))
    case (Some(JStr(action)), Some(JNum(n))) =>
      if !(0 <= n < 0x1_0000_0000) then None
      else
        var version := n as u32;
        (match Get(j, "params")
         case None => Some(DeckNames(action, version))
         case Some(p) =>
           if Get(p, "notes").Some? then
             (match Get(p, "notes")
              case Some(JArr(items)) =>
                (match DecodeList(items, DecodeNote)
                 case Some(notes) => Some(AddNotes(action, version, notes))
                 case None => None)
              case _ => None)
           else
             (match (Get(p, "query"), Get(p, "deck"))
              case (Some(JStr(query)), _) => Some(FindNotes(action, version, query))
              case (None, Some(JStr(deck))) => Some(CreateDeck(action, version, deck))
              case _ => None))
    case _ => None
  }

  /** The members every encoded request has, as the decoder looks them up. */
  lemma EncodeHead(r: Request)
    ensures Get(Encode(r), "action") == Some(JStr(r.action))
    ensures Get(Encode(r), "version") == Some(JNum(r.version as int))
    ensures r.DeckNames? ==> Get(Encode(r), "params") == None
    ensures !r.DeckNames? ==> Get(Encode(r), "params") == Some(Encode(r).members["params"])
  {
  }

  lemma DecodeEncodeAddNotes(r: Request)
    requires r.AddNotes?
    ensures Decode(Encode(r)) == Some(r)
  {
    EncodeHead(r);
    var items := EncodeList(r.notes, EncodeNote);
    var p := JObj(map["notes" := JArr(items)]);
    assert Get(p, "notes") == Some(JArr(items));
    forall i | 0 <= i < |r.notes| ensures DecodeNote(EncodeNote(r.notes[i])) == Some(r.notes[i]) {
      DecodeEncodeNote(r.notes[i]);
    }
    DecodeEncodeList(r.notes, EncodeNote, DecodeNote);
    DecodeAddNotesParts(Encode(r), p, items, r);
  }

  /** An `addNotes` request is read back from any object whose members decode to its parts. */
  lemma DecodeAddNotesParts(j: Json, p: Json, items: seq<Json>, r: Request)
    requires r.AddNotes?
    requires Get(j, "action") == Some(JStr(r.action)) && Get(j, "version") == Some(JNum(r.version as int))
    requires Get(j, "params") == Some(p) && Get(p, "notes") == Some(JArr(items))
    requires DecodeList(items, DecodeNote) == Some(r.notes)
    ensures Decode(j) == Some(r)
  {
  }

  lemma DecodeEncodeFindNotes(r: Request)
    requires r.FindNotes?
    ensures Decode(Encode(r)) == Some(r)
  {
    EncodeHead(r);
    var p := JObj(map["query" := JStr(r.query)]);
    assert Get(p, "notes") == None && Get(p, "query") == Some(JStr(r.query));
  }

  lemma DecodeEncodeCreateDeck(r: Request)
    requires r.CreateDeck?
    ensures Decode(Encode(r)) == Some(r)
  {
    EncodeHead(r);
    var p := JObj(map["deck" := JStr(r.deck)]);
    assert Get(p, "notes") == None && Get(p, "query") == None && Get(p, "deck") == Some(JStr(r.deck));
  }

  /** Every request survives a trip through its JSON shape unchanged. */
  lemma DecodeEncode(r: Request)
    ensures Decode(Encode(r)) == Some(r)
  {
    match r
    case AddNotes(_, _, _) => DecodeEncodeAddNotes(r);
    case FindNotes(_, _, _) => DecodeEncodeFindNotes(r);
    case CreateDeck(_, _, _) => DecodeEncodeCreateDeck(r);
    case DeckNames(_, _) => EncodeHead(r);
  }

  /** Distinct requests have distinct JSON shapes. */
  lemma EncodeInjective(r1: Request, r2: Request)
    requires Encode(r1) == Encode(r2)
    ensures r1 == r2
  {
    DecodeEncode(r1);
    DecodeEncode(r2);
  }
}
