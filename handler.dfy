/** The Lambda handler of the service: it keeps the INSERT records of a DynamoDB Streams
    batch, turns each new image into a User, and publishes the whole list as one SNS
    message to a fixed topic, or publishes nothing when no record qualifies. */
module Handler {
  import opened Results
  import opened Fold
  import opened Events

  /** The event name that selects a record, compared case-insensitively. */
  const InsertType: string := "INSERT"
  /** The SNS topic every message goes to. */
  const TopicArn: string := "arn:aws:sns:us-east-2:161142984839:contactsDynamoFredy"

  /** The published view of a row; its JSON keys are id, status, firstName, lastName. */
  datatype User = User(id: string, status: string, firstName: string, lastName: string)

  /** The arguments of one SNS Publish call. */
  datatype PublishInput = PublishInput(message: string, topicArn: string)

  /** A record is forwarded exactly when its event name folds to INSERT. */
  predicate IsInsert(r: Record)
  {
    EqualFold(r.eventName, InsertType)
  }

  /** `UnmarshalDataToUserStruct`: each User field is the string form, as given by
      `render` (the attribute's `String()` method), of the attribute under its own key. */
  function Extract(render: Attr -> string, image: map<string, Attr>): User
  {
    User(render(Lookup(image, "id")), render(Lookup(image, "status")),
         render(Lookup(image, "firstName")), render(Lookup(image, "lastName")))
  }

  /** The users the handler collects from `records`: one per INSERT record, in input order. */
  function Users(render: Attr -> string, records: seq<Record>): (users: seq<User>)
    ensures |users| <= |records|
  {
    if records == [] then []
    else
      var last := records[|records| - 1];
      Users(render, records[..|records| - 1])
        + (if IsInsert(last) then [Extract(render, last.change.newImage)] else [])
  }

  /** The positions of the INSERT records of `records`, in increasing order. */
  function QualifyingIndices(records: seq<Record>): (idx: seq<nat>)
    ensures forall j :: 0 <= j < |idx| ==> idx[j] < |records| && IsInsert(records[idx[j]])
    ensures forall j, k :: 0 <= j < k < |idx| ==> idx[j] < idx[k]
    ensures forall k :: 0 <= k < |records| && IsInsert(records[k]) ==> k in idx
  {
    if records == [] then []
    else
      var n := |records| - 1;
      var front := records[..n];
      assert forall k :: 0 <= k < n ==> front[k] == records[k];
      QualifyingIndices(front) + (if IsInsert(records[n]) then [n] else [])
  }

  /** `handleRequest`: walks the batch in order collecting a User for every INSERT
      record; with none it returns nil without publishing; otherwise it marshals the
      whole list once and publishes it once to `TopicArn`, returning the marshal or
      publish error unchanged. `sent` is the log of Publish calls made. */
  method HandleRequest(records: seq<Record>, render: Attr -> string,
                       marshal: seq<User> -> Result<string>,
                       publish: PublishInput -> Option<Error>)
    returns (err: Option<Error>, sent: seq<PublishInput>)
    ensures |sent| <= 1
    ensures Users(render, records) == [] ==> err == None && sent == []
    ensures Users(render, records) != [] ==>
      match marshal(Users(render, records))
      case Failure(e) => err == Some(e) && sent == []
      case Success(m) => sent == [PublishInput(m, TopicArn)] && err == publish(sent[0])
  {
    var users: seq<User> := [];
    for i := 0 to |records|
      invariant users == Users(render, records[..i])
    {
      var record := records[i];
      if EqualFold(record.eventName, InsertType) {
        var userGot := Extract(render, record.change.newImage);
        users := users + [userGot];
      }
      assert records[..i + 1][..i] == records[..i];
    }
    assert records[..|records|] == records;

    if |users| == 0 {
      return None, [];
    }

    var dataToSend := marshal(users);
    if dataToSend.Failure? {
      return Some(dataToSend.error), [];
    }
    var input := PublishInput(dataToSend.value, TopicArn);
    sent := [input];
    err := publish(input);
  }

  // ---------------------------------------------------------------------------
  // The filter-map, stated independently of its recursive definition

  /** Collecting over a concatenation is the concatenation of the collections:
      records never move relative to one another. */
  lemma {:induction false} UsersAppend(render: Attr -> string, a: seq<Record>, b: seq<Record>)
    ensures Users(render, a + b) == Users(render, a) + Users(render, b)
  {
    if b != [] {
      var n := |b| - 1;
      assert (a + b)[..|a + b| - 1] == a + b[..n];
      assert (a + b)[|a + b| - 1] == b[n];
      UsersAppend(render, a, b[..n]);
    } else {
      assert a + b == a;
    }
  }

  /** A non-INSERT record contributes nothing wherever it sits; an INSERT record
      contributes exactly its own User, at its own place. */
  lemma SingleRecordContribution(render: Attr -> string, a: seq<Record>, r: Record, b: seq<Record>)
    ensures !IsInsert(r) ==> Users(render, a + [r] + b) == Users(render, a + b)
    ensures IsInsert(r) ==>
      Users(render, a + [r] + b) == Users(render, a) + [Extract(render, r.change.newImage)] + Users(render, b)
  {
    UsersAppend(render, a + [r], b);
    UsersAppend(render, a, [r]);
    UsersAppend(render, a, b);
    assert [r][..0] == [];
  }

  /** Output j is the User of the j-th INSERT record of the batch: every INSERT record is
      kept, in input order, and nothing else is. */
  lemma {:induction false} UsersFollowQualifyingRecords(render: Attr -> string, records: seq<Record>)
    ensures |Users(render, records)| == |QualifyingIndices(records)|
    ensures forall j :: 0 <= j < |Users(render, records)| ==>
      Users(render, records)[j] == Extract(render, records[QualifyingIndices(records)[j]].change.newImage)
  {
    if records != [] {
      var n := |records| - 1;
      var front := records[..n];
      UsersFollowQualifyingRecords(render, front);
      forall j | 0 <= j < |QualifyingIndices(front)|
        ensures records[QualifyingIndices(front)[j]] == front[QualifyingIndices(front)[j]]
      {
      }
    }
  }

  /** No user is collected exactly when no record of the batch is an INSERT. */
  lemma {:induction false} UsersEmptyIff(render: Attr -> string, records: seq<Record>)
    ensures Users(render, records) == [] <==> forall k :: 0 <= k < |records| ==> !IsInsert(records[k])
  {
    if records != [] {
      var n := |records| - 1;
      UsersEmptyIff(render, records[..n]);
      assert forall k :: 0 <= k < n ==> records[..n][k] == records[k];
    }
  }

  /** One user per record exactly when every record of the batch is an INSERT. */
  lemma {:induction false} UsersFullIff(render: Attr -> string, records: seq<Record>)
    ensures |Users(render, records)| == |records| <==> forall k :: 0 <= k < |records| ==> IsInsert(records[k])
  {
    if records != [] {
      var n := |records| - 1;
      UsersFullIff(render, records[..n]);
      assert forall k :: 0 <= k < n ==> records[..n][k] == records[k];
    }
  }

  // ---------------------------------------------------------------------------
  // The event-name test

  /** The runes that fold together with an upper-case ASCII letter other than K: the
      letter and its lower case, plus the long s when the letter is S. */
  lemma FoldsWithLetter(c: char, t: char)
    requires 'A' <= t <= 'Z' && t != 'K'
    ensures FoldKey(c) == FoldKey(t) <==>
      c == t || c as int == t as int + 32 || (t == 'S' && c == LongS)
  {
  }

  /** The event names that qualify, spelled out: six runes, each one of the case
      variants of the matching letter of INSERT, the long s included. */
  lemma InsertSpellings(name: string)
    ensures EqualFold(name, InsertType) <==>
      |name| == 6 &&
      (name[0] == 'I' || name[0] == 'i') &&
      (name[1] == 'N' || name[1] == 'n') &&
      (name[2] == 'S' || name[2] == 's' || name[2] == LongS) &&
      (name[3] == 'E' || name[3] == 'e') &&
      (name[4] == 'R' || name[4] == 'r') &&
      (name[5] == 'T' || name[5] == 't')
  {
    EqualFoldPointwise(name, InsertType);
    if |name| == 6 {
      FoldsWithLetter(name[0], 'I');
      FoldsWithLetter(name[1], 'N');
      FoldsWithLetter(name[2], 'S');
      FoldsWithLetter(name[3], 'E');
      FoldsWithLetter(name[4], 'R');
      FoldsWithLetter(name[5], 'T');
      var t := InsertType;
      assert t[0] == 'I' && t[1] == 'N' && t[2] == 'S' && t[3] == 'E' && t[4] == 'R' && t[5] == 'T';
      assert (forall i :: 0 <= i < 6 ==> FoldKey(name[i]) == FoldKey(t[i])) <==>
        FoldKey(name[0]) == FoldKey(t[0]) && FoldKey(name[1]) == FoldKey(t[1]) &&
        FoldKey(name[2]) == FoldKey(t[2]) && FoldKey(name[3]) == FoldKey(t[3]) &&
        FoldKey(name[4]) == FoldKey(t[4]) && FoldKey(name[5]) == FoldKey(t[5]);
    }
  }

  /** Upper, lower and mixed case INSERT qualify; MODIFY and REMOVE do not. */
  lemma EventNameExamples()
    ensures EqualFold("INSERT", InsertType) && EqualFold("insert", InsertType) && EqualFold("Insert", InsertType)
    ensures !EqualFold("MODIFY", InsertType) && !EqualFold("REMOVE", InsertType)
    ensures !EqualFold("INSERTED", InsertType) && !EqualFold("", InsertType)
  {
  }

  // ---------------------------------------------------------------------------
  // Field extraction

  /** Each User field depends on its own key of the image and on no other key: images
      that agree on a key give the same value for that key's field. */
  lemma ExtractFieldsFromOwnKeys(render: Attr -> string, m1: map<string, Attr>, m2: map<string, Attr>)
    ensures Lookup(m1, "id") == Lookup(m2, "id") ==> Extract(render, m1).id == Extract(render, m2).id
    ensures Lookup(m1, "status") == Lookup(m2, "status") ==> Extract(render, m1).status == Extract(render, m2).status
    ensures Lookup(m1, "firstName") == Lookup(m2, "firstName") ==>
      Extract(render, m1).firstName == Extract(render, m2).firstName
    ensures Lookup(m1, "lastName") == Lookup(m2, "lastName") ==>
      Extract(render, m1).lastName == Extract(render, m2).lastName
  {
  }

  /** Keys other than the four field names never affect the User. */
  lemma ExtractIgnoresOtherKeys(render: Attr -> string, image: map<string, Attr>, key: string, v: Attr)
    requires key !in ["id", "status", "firstName", "lastName"]
    ensures Extract(render, image[key := v]) == Extract(render, image)
  {
  }

  /** `render` gives back the text of a string-typed attribute. */
  ghost predicate RendersStrings(render: Attr -> string)
  {
    forall s :: render(S(s)) == s
  }

  /** An image holding the four keys as string attributes yields exactly those strings. */
  lemma ExtractStrings(render: Attr -> string, id: string, status: string, firstName: string, lastName: string)
    requires RendersStrings(render)
    ensures Extract(render, map["id" := S(id), "status" := S(status),
                                "firstName" := S(firstName), "lastName" := S(lastName)])
            == User(id, status, firstName, lastName)
  {
  }

  // ---------------------------------------------------------------------------
  // Batches

  /** One INSERT record with a full string image yields that one user. */
  lemma SingleInsertBatch(render: Attr -> string)
    requires RendersStrings(render)
    ensures Users(render, [Record("e1", "INSERT", StreamRecord(map["id" := S("1"), "status" := S("active"),
                                                                    "firstName" := S("Ana"), "lastName" := S("Ruiz")]))])
            == [User("1", "active", "Ana", "Ruiz")]
  {
  }

  /** A batch holding only a MODIFY record collects nothing, so nothing is published. */
  lemma ModifyOnlyBatch(render: Attr -> string, image: map<string, Attr>)
    ensures Users(render, [Record("e1", "MODIFY", StreamRecord(image))]) == []
  {
  }
}
