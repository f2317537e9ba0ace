/** The result set over a GetObject response: it skips the parts that say "no object", stops at
    a part that says the request failed, and turns every other part into a row. */
module ObjectResultSet {
  import opened Text

  /** One part of the response, as librets hands it out. */
  datatype ObjectDescriptor = ObjectDescriptor(replyCode: int, replyText: string, objectKey: string,
                                               objectId: int, contentType: string, description: string,
                                               locationUrl: string, data: string)

  /** What `hasNext` says: a row is there, there is none, or it throws the reply text. */
  datatype HasNext = Row | End | Failed(message: string)

  const NO_OBJECT_FOUND := 20403

  predicate IsFatal(code: int) {
    code in {20400, 20401, 20402, 20406, 20407, 20408, 20409, 20410, 20411, 20412, 20413, 20414}
  }

  const OBJECT_KEY := "object_key"
  const OBJECT_ID := "object_id"
  const MIME_TYPE := "mime_type"
  const DESCRIPTION := "description"
  const LOCATION_URL := "location_url"
  const RAW_DATA := "raw_data"

  function Decimal(n: int): string
    decreases if n < 0 then 1 else 0, if n < 0 then -n else n
  {
    if n < 0 then "-" + Decimal(-n)
    else if n < 10 then [DigitChar(n)]
    else Decimal(n / 10) + [DigitChar(n % 10)]
  }

  /** The row that an object becomes, by column name. */
  function RowOf(o: ObjectDescriptor): map<string, string> {
    map[OBJECT_KEY := o.objectKey, OBJECT_ID := Decimal(o.objectId), MIME_TYPE := o.contentType,
        DESCRIPTION := o.description, LOCATION_URL := o.locationUrl, RAW_DATA := o.data]
  }

  /** The columns of an object's row, by name. */
  lemma RowNames(o: ObjectDescriptor)
    ensures RowOf(o).Keys == {"object_key", "object_id", "mime_type", "description", "location_url", "raw_data"}
    ensures RowOf(o)["object_key"] == o.objectKey && RowOf(o)["mime_type"] == o.contentType
    ensures RowOf(o)["description"] == o.description && RowOf(o)["location_url"] == o.locationUrl
    ensures RowOf(o)["raw_data"] == o.data && RowOf(o)["object_id"] == Decimal(o.objectId)
  {
    NamesApart();
  }

  lemma NamesApart()
    ensures OBJECT_KEY != OBJECT_ID && OBJECT_KEY != MIME_TYPE && OBJECT_KEY != DESCRIPTION
    ensures OBJECT_KEY != LOCATION_URL && OBJECT_KEY != RAW_DATA && OBJECT_ID != MIME_TYPE
    ensures OBJECT_ID != DESCRIPTION && OBJECT_ID != LOCATION_URL && OBJECT_ID != RAW_DATA
    ensures MIME_TYPE != DESCRIPTION && MIME_TYPE != LOCATION_URL && MIME_TYPE != RAW_DATA
    ensures DESCRIPTION != LOCATION_URL && DESCRIPTION != RAW_DATA && LOCATION_URL != RAW_DATA
  {
    assert OBJECT_KEY[7] == 'k' && OBJECT_ID[7] == 'i' && MIME_TYPE[0] == 'm' && DESCRIPTION[0] == 'd';
    assert LOCATION_URL[0] == 'l' && RAW_DATA[0] == 'r' && OBJECT_KEY[0] == 'o' && OBJECT_ID[0] == 'o';
  }

  /** The reply codes that end a request: 20400 to 20414 but for 20403, 20404 and 20405. */
  lemma FatalCodes(o: ObjectDescriptor)
    ensures AnswerFor(o) ==
            if 20400 <= o.replyCode <= 20414 && !(20403 <= o.replyCode <= 20405) then Failed(o.replyText) else Row
    ensures Relevant([o]) == if o.replyCode == 20403 then [] else [o]
  {
  }

  /** An object number is written as the decimal that it is. */
  lemma {:induction false} DecimalIs(n: nat)
    ensures AllDigits(Decimal(n)) && Number(Decimal(n)) == n && Decimal(n) != ""
    ensures n > 0 ==> Decimal(n)[0] != '0'
    ensures Decimal(0 - n) == if n == 0 then "0" else "-" + Decimal(n)
  {
    if n >= 10 {
      DecimalIs(n / 10);
      assert Decimal(n)[..|Decimal(n)| - 1] == Decimal(n / 10);
    } else {
      assert Number(Decimal(n)[..0]) == 0;
    }
  }

  function AnswerFor(o: ObjectDescriptor): HasNext {
    if IsFatal(o.replyCode) then Failed(o.replyText) else Row
  }

  /** The parts that are not skipped. */
  function Relevant(objects: seq<ObjectDescriptor>): seq<ObjectDescriptor> {
    if objects == [] then []
    else (if objects[0].replyCode == NO_OBJECT_FOUND then [] else [objects[0]]) + Relevant(objects[1..])
  }

  /** The parts left after the first one that is not skipped. */
  function Rest(objects: seq<ObjectDescriptor>): (rest: seq<ObjectDescriptor>)
    ensures |rest| <= |objects|
  {
    if objects == [] then []
    else if objects[0].replyCode == NO_OBJECT_FOUND then Rest(objects[1..])
    else objects[1..]
  }

  // ---- The classes

  class GetObjectResponse {
    var remaining: seq<ObjectDescriptor>

    constructor (objects: seq<ObjectDescriptor>)
      ensures remaining == objects
    {
      remaining := objects;
    }

    method NextObject() returns (next: Option<ObjectDescriptor>)
      modifies this
      ensures next == if old(remaining) == [] then None else Some(old(remaining)[0])
      ensures remaining == if old(remaining) == [] then [] else old(remaining)[1..]
    {
      if remaining == [] {
        return None;
      }
      next := Some(remaining[0]);
      remaining := remaining[1..];
    }
  }

  class OnDemandObjectResultSet {
    var objectResponse: GetObjectResponse?
    var currentObject: Option<ObjectDescriptor>
    var objectResponseMap: map<string, string>

    constructor ()
      ensures objectResponse == null && objectResponseMap == map[]
    {
      objectResponse, currentObject, objectResponseMap := null, None, map[];
    }

    method HasNext() returns (answer: HasNext)
      modifies this`currentObject, this`objectResponseMap, objectResponse
      ensures objectResponse == null ==> answer == End && objectResponseMap == old(objectResponseMap)
      ensures objectResponse != null ==>
                var relevant := Relevant(old(objectResponse.remaining));
                && objectResponse.remaining == Rest(old(objectResponse.remaining))
                && answer == (if relevant == [] then End else AnswerFor(relevant[0]))
                && objectResponseMap == (if answer.Row? then RowOf(relevant[0]) else old(objectResponseMap))
      decreases if objectResponse == null then 0 else |objectResponse.remaining|
    {
      if objectResponse == null {
        return End;
      }
      currentObject := objectResponse.NextObject();
      if currentObject.None? {
        return End;
      }
      var o := currentObject.value;
      if IsFatal(o.replyCode) {
        return Failed(o.replyText);
      }
      if o.replyCode == NO_OBJECT_FOUND {
        answer := HasNext();
        return;
      }
      objectResponseMap := map[];
      objectResponseMap := objectResponseMap[OBJECT_KEY := o.objectKey];
      objectResponseMap := objectResponseMap[OBJECT_ID := Decimal(o.objectId)];
      objectResponseMap := objectResponseMap[MIME_TYPE := o.contentType];
      objectResponseMap := objectResponseMap[DESCRIPTION := o.description];
      objectResponseMap := objectResponseMap[LOCATION_URL := o.locationUrl];
      objectResponseMap := objectResponseMap[RAW_DATA := o.data];
      return Row;
    }

    /** `mObjectResponseMap[name]`: a column without an entry is given an empty one. */
    method ValueOf(name: string) returns (value: string)
      modifies this`objectResponseMap
      ensures value == if name in old(objectResponseMap) then old(objectResponseMap)[name] else ""
      ensures objectResponseMap == old(objectResponseMap)[name := value]
    {
      if name !in objectResponseMap {
        objectResponseMap := objectResponseMap[name := ""];
      }
      value := objectResponseMap[name];
    }
  }

  // ---- Whole runs

  /** The answers to n calls of `hasNext`. */
  function Answers(objects: seq<ObjectDescriptor>, n: nat): (answers: seq<HasNext>)
    ensures |answers| == n
    decreases n
  {
    if n == 0 then []
    else
      var relevant := Relevant(objects);
      [if relevant == [] then End else AnswerFor(relevant[0])] + Answers(Rest(objects), n - 1)
  }

  lemma {:induction false} RestDropsOne(objects: seq<ObjectDescriptor>)
    ensures Relevant(Rest(objects)) == if Relevant(objects) == [] then [] else Relevant(objects)[1..]
  {
    if objects != [] {
      RestDropsOne(objects[1..]);
    }
  }

  /** Call i answers for the i-th part that is not skipped: with a row or with its error, and
      with the end from then on. */
  lemma {:induction false} AnswersInOrder(objects: seq<ObjectDescriptor>, n: nat, i: nat)
    requires i < n
    ensures Answers(objects, n)[i] == if i < |Relevant(objects)| then AnswerFor(Relevant(objects)[i]) else End
    decreases n
  {
    if i > 0 {
      RestDropsOne(objects);
      AnswersInOrder(Rest(objects), n - 1, i - 1);
    }
  }

  /** The objects that arrive before the first call that is not answered by a row. */
  function Delivered(objects: seq<ObjectDescriptor>): seq<ObjectDescriptor>
    decreases |Relevant(objects)|
  {
    var relevant := Relevant(objects);
    if relevant == [] || !AnswerFor(relevant[0]).Row? then []
    else
      RestDropsOne(objects);
      [relevant[0]] + Delivered(Rest(objects))
  }

  function UpToFatal(objects: seq<ObjectDescriptor>): seq<ObjectDescriptor> {
    if objects == [] || IsFatal(objects[0].replyCode) then []
    else [objects[0]] + UpToFatal(objects[1..])
  }

  /** Exactly the objects other than "no object found" arrive, in order, up to the first fatal
      reply code or the end of the response. */
  lemma {:induction false} DeliversAllUpToFatal(objects: seq<ObjectDescriptor>)
    ensures Delivered(objects) == UpToFatal(Relevant(objects))
    decreases |Relevant(objects)|
  {
    RestDropsOne(objects);
    if Relevant(objects) != [] && !IsFatal(Relevant(objects)[0].replyCode) {
      DeliversAllUpToFatal(Rest(objects));
    }
  }
}
