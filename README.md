# subscribeDynamo handler, modelled in Dafny

The service is one AWS Lambda function fed by a DynamoDB Streams trigger. For each
batch it keeps the records whose event name is `INSERT` compared case-insensitively,
turns each one's new image into a `User` (`id`, `status`, `firstName`, `lastName`),
and, when at least one record qualified, marshals the whole list once and publishes it
as a single SNS message to a fixed topic. With no qualifying record it publishes nothing
and returns `nil`; a marshal or publish error is returned unchanged.

Files:

- `results.dfy` (`Results`): Go's `error` and `(value, error)` returns as `Option`/`Result`.
- `fold.dfy` (`Fold`): `strings.EqualFold` as a rune-by-rune comparison under case folding.
- `events.dfy` (`Events`): the stream batch — attribute values, stream records, records,
  and Go's map indexing (`Lookup`, which yields the zero attribute for a missing key).
- `handler.dfy` (`Handler`): the constants `InsertType` and `TopicArn`, the `User` type,
  `Extract` (`UnmarshalDataToUserStruct`), the specification function `Users` of the
  collected list, the imperative `HandleRequest` with its loop, and the lemmas.

`HandleRequest` takes the three library calls it cannot see as parameters: `render`
(the attribute's `String()` method), `marshal` (`json.Marshal` of the user list, which may
fail) and `publish` (`svc.Publish`, which may fail). Besides the returned error it returns
`sent`, the log of Publish calls it made, so that "zero or one publish" is a statement
about its results.

## Model

| member | source | states |
|---|---|---|
| `Handler.HandleRequest` | main.go:39-76 | the collected list equals `Users(records)`; with no INSERT record the result is nil and no Publish is made; otherwise the whole list is marshalled once, a marshal error is returned with no Publish, and on success exactly one Publish is made to `TopicArn` carrying that single message and its error (or nil) is returned unchanged; never more than one Publish |
| `Handler.Users` | main.go:40-47 | the collected list never has more entries than the batch (at most one append per record) |
| `Handler.QualifyingIndices` | main.go:41-46 | the positions of the INSERT records, strictly increasing, each an INSERT record, and every INSERT position present |
| `Handler.UsersFollowQualifyingRecords` | main.go:41-46 | the j-th collected user is the extraction of the j-th INSERT record's new image: nothing qualifying is dropped, nothing reordered, nothing else added |
| `Handler.UsersAppend` | main.go:41-46 | collecting over `a + b` is collecting over `a` followed by collecting over `b` (input order is kept) |
| `Handler.SingleRecordContribution` | main.go:43-46 | a non-INSERT record contributes nothing wherever it sits; an INSERT record contributes exactly its own User at its own place |
| `Handler.UsersEmptyIff` | main.go:49-52 | the list is empty (publishing is skipped) exactly when no record of the batch is an INSERT |
| `Handler.UsersFullIff` | main.go:40-47 | the list is as long as the batch exactly when every record is an INSERT |
| `Fold.EqualFoldPointwise` | main.go:43 | the fold comparison holds exactly when both strings have the same number of runes and agree position by position up to folding |
| `Fold.EqualFoldIsEquivalence` | main.go:43 | the fold comparison is reflexive, symmetric and transitive |
| `Handler.FoldsWithLetter` | main.go:43 | the runes that fold with an upper-case ASCII letter other than K are the letter, its lower case, and the long s for S |
| `Handler.InsertSpellings` | main.go:43 | an event name qualifies exactly when it has six runes, each a case variant of the matching letter of `INSERT` (the long s included for S) |
| `Handler.EventNameExamples` | main.go:19 | `INSERT`, `insert` and `Insert` qualify; `MODIFY`, `REMOVE`, `INSERTED` and the empty name do not |
| `Handler.ExtractFieldsFromOwnKeys` | main.go:78-90 | each User field depends only on its own key (`id`, `status`, `firstName`, `lastName`); no cross-wiring, and equal images give equal Users |
| `Handler.ExtractIgnoresOtherKeys` | main.go:78-90 | changing any key other than the four field names leaves the User unchanged |
| `Handler.ExtractStrings` | main.go:78-90 | an image holding the four keys as string attributes yields a User of exactly those four strings |
| `Handler.SingleInsertBatch` | main.go:39-47 | a batch of one `INSERT` record with image `{id: "1", status: "active", firstName: "Ana", lastName: "Ruiz"}` collects exactly that one User |
| `Handler.ModifyOnlyBatch` | main.go:41-47 | a batch holding only a `MODIFY` record collects nothing, whatever its image |

## Left out

- AWS session and SNS client construction (main.go:54-61), including the `AWS_REGION`
  lookup and `session.Must` panicking on a bad configuration: network and SDK setup.
  Note that in the source they happen only after the empty-batch check, so a skipped
  batch never builds a session; the model's `publish` parameter stands for the client.
- `json.Marshal` internals (main.go:62): modelled as an arbitrary function of the user
  list that may fail; the JSON text and the struct tags at main.go:27-32 are not modelled.
- SNS delivery: `publish` is an arbitrary function from the Publish arguments to an
  optional error; delivery guarantees belong to the service.
- The attribute's `String()` method: its library source is not part of this model, so
  `render` is uninterpreted. What it returns for the zero attribute (a missing key) or for
  a non-string attribute, including whether it panics, is not modelled; only
  `ExtractStrings` and the batch scenarios assume it returns the text of a string attribute.
- Fold.EqualFold: folds ASCII letters, the long s (U+017F) and the Kelvin sign (U+212A)
  only; other non-ASCII case pairs (Greek, Cyrillic, ...) compare unequal here although
  Go folds them. This is exact for comparisons against `INSERT`, the only one the handler
  makes. Invalid UTF-8 in a Go string is not modelled (Dafny strings are Unicode scalars).
- Logging (`fmt.Printf`, `log.Printf`), `lambda.Start` (main.go:36) and the unused
  `ctx` parameter: hosting and side-effect output only.
- The variant that forwards every record without filtering is not part of this model;
  only the filtering handler in main.go is.
- A missing key is passed to `String()` as Go's zero attribute value; the model does not
  claim it becomes an empty string, since that depends on the library method above.
