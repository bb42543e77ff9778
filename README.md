# authboss validation errors, modelled in Dafny

This project models the validation-error aggregation of authboss (Go). Validators
check the fields of a submitted form. Each one reports an `ErrorList` or nil.
`Validate` runs them in order and concatenates what they report. The resulting
`ErrorList` can be rendered as one message (`Error()`) or grouped by field name
(`Map()`) so that each message can be shown next to its input.

The behaviour is taken from the assertions of `validation_test.go`. The
implementation file of the package is not part of this model.

- `wrappers.dfy`, module `Wrappers`: `Option`, standing for a validator's result that may be nil.
- `errors.dfy`, module `Errors`: the `Error` datatype. `Field(name, msg)` is a
  `FieldError`; `Plain(msg)` is any other error. Also `Render`, which is
  `ErrorList.Error()`: the messages joined by `", "` in list order.
- `grouping.dfy`, module `Grouping`: `Map`, which is `ErrorList.Map()`. It is a
  method with a loop that adds one element at a time. It is proved equal to the
  specification function `GroupByField`. `GroupByField` is in turn proved equal
  to an independent per-key filter, `Bucket`, and proved to have exactly the
  keys in `Names`.
- `validation.dfy`, module `Validation`: `Validate`, a method with a loop over
  the validators. It is proved equal to the specification function `Collected`,
  and the ordering and membership lemmas are proved about `Collected`.

A data source is a map from field name to submitted value. A validator is a
function from a data source to an optional `ErrorList`.

## Model

| member | source | states |
|---|---|---|
| `Errors.FieldMessageIsCause` | validation_test.go:36-61 | a FieldError's text is its cause's message; the field name is not part of it |
| `Errors.Messages` | validation_test.go:11-14 | the message sequence has one entry per element, and entry i is element i's message |
| `Errors.MessagesAppend` | validation_test.go:11-14 | the messages of a concatenation are the messages of the first list followed by those of the second |
| `Errors.Join` | validation_test.go:11-14 | joining nothing gives ""; otherwise the text opens with the first part and closes with the last |
| `Errors.JoinAppend` | validation_test.go:11-14 | joining two non-empty runs of parts puts exactly one separator between their joined texts |
| `Errors.JoinSnoc` | validation_test.go:11-14 | adding a part to a non-empty sequence appends the separator and then that part |
| `Errors.JoinLength` | validation_test.go:11-14 | the joined text is as long as all the parts plus one separator per gap |
| `Errors.Render` | validation_test.go:11-14 | Error() of an empty list is ""; otherwise it opens with the first element's message and closes with the last one's; RenderShort and RenderAppend characterise the rest |
| `Errors.RenderShort` | validation_test.go:11-14 | an empty list renders as ""; a one-element list renders as that element's message |
| `Errors.RenderAppend` | validation_test.go:11-14 | rendering a concatenation of two non-empty lists gives their renderings joined by ", " |
| `Errors.RenderSnoc` | validation_test.go:11-14 | appending one error to a non-empty list appends ", " and that error's message to the rendering |
| `Errors.RenderLength` | validation_test.go:11-14 | the rendering is as long as all the messages plus two characters per gap |
| `Errors.RenderOneTwo` | validation_test.go:11-14 | the list [one, two] renders as "one, two" |
| `Grouping.UnscopedBucket` | validation_test.go:55-61 | an element goes to the "" bucket exactly when it is a plain error or a FieldError named ""; any other key is the element's field name |
| `Grouping.AddStep` | validation_test.go:24-31 | one grouping step appends the element's message to the end of its bucket, creating the bucket if absent, and leaves every other bucket unchanged |
| `Grouping.GroupByField` | validation_test.go:24-61 | the map that Map() specifies, built by adding the elements in list order; none of its buckets is empty |
| `Grouping.Map` | validation_test.go:24-61 | Map() builds the map element by element; its keys are exactly the field names present ("" for plain errors), and each bucket is non-empty and holds its elements' messages in list order |
| `Grouping.BucketAppend` | validation_test.go:36-45 | the bucket of a concatenation holds the first list's messages for that key before the second list's |
| `Grouping.BucketEmpty` | validation_test.go:31-34 | a key's bucket is empty exactly when no element carries that key |
| `Grouping.GroupKeys` | validation_test.go:31-34 | the keys of Map() are exactly the distinct field names in the list, with "" standing for plain errors |
| `Grouping.GroupBucket` | validation_test.go:36-61 | a key is in Map() exactly when its filtered bucket is non-empty; when present, its value is that bucket, in list order |
| `Grouping.SumSizesRemove` | validation_test.go:24-34 | the total bucket size of a map is any one bucket's size plus the total of the other buckets |
| `Grouping.SumSizesAdd` | validation_test.go:24-31 | adding one element to the map raises the total bucket size by exactly one |
| `Grouping.GroupConservesCount` | validation_test.go:24-61 | the bucket sizes of Map() sum to the list length, so each element lands in exactly one bucket |
| `Grouping.MapExample` | validation_test.go:24-61 | the four-error list of TestErrorList_Map gives 3 keys: username with [not long enough, should be an email], password with [not long enough], and "" with [asploded] |
| `Validation.Validate` | validation_test.go:69-79 | each validator runs once against the data source, in validator order; the result is their lists concatenated in that order, and an error is in it exactly when some validator reported it |
| `Validation.Contribution` | validation_test.go:76-78 | a validator's result adds nothing exactly when it is nil or an empty list; otherwise it adds its list unchanged |
| `Validation.AllNilCollectsNothing` | validation_test.go:88-90 | when every validator reports nil, the collected list is empty |
| `Validation.CollectedAppend` | validation_test.go:69-79 | collecting two runs of results back to back concatenates their lists, in order |
| `Validation.CollectedSingle` | validation_test.go:76-78 | a single result collected alone gives its contribution; nil gives the empty list |
| `Validation.CollectedSplit` | validation_test.go:69-79 | validator i's errors appear unchanged and contiguously, after those of earlier validators and before those of later ones |
| `Validation.NilContributesNothing` | validation_test.go:76-78 | a nil result anywhere in the sequence leaves the collected list unchanged |
| `Validation.CollectedMembers` | validation_test.go:73-74 | an error is in the collected list exactly when some validator's own result contains it; Validate adds no error of its own |
| `Validation.CollectedLength` | validation_test.go:69-79 | the collected list's length is the sum of the validators' list lengths |
| `Validation.CollectedBucketOrder` | validation_test.go:81-87 | within each bucket, the messages of earlier validators come before those of later validators |
| `Validation.CollectedKeys` | validation_test.go:81-90 | a key is in Map() of the validated list exactly when some validator reported an error under that key, so a nil validator adds no key |
| `Validation.CollectedRender` | validation_test.go:69-79 | when both runs report at least one error, Error() of the validated list is the two runs' renderings joined by ", " |
| `Validation.ValidateNothing` | validation_test.go:69-79 | with no validators, the list is empty and Map() is the empty map |
| `Validation.ValidateExample` | validation_test.go:67-90 | the three validators of TestValidate give the map {username: [must be longer than 4], missing_field: [Expected field to exist.]}; email is absent, and missing_field has no value in the data source |

## Left out

- The request context behind `mockRequestContext` (validation_test.go:67) is not modelled. The data source is a map parameter from field name to value.
- The rules inside individual validators, such as `mockValidator` (validation_test.go:70-78), are not modelled. A validator is an arbitrary function from the data source to an optional ErrorList.
- `Validation.Validate` never checks whether a validator's field exists in the data source. The test's outcome is the same whether the "Expected field to exist." error comes from the validator or from Validate. This model attributes it to the validator.
- Errors.Render: no assertion renders a FieldError with `Error()`; the tests render only plain errors (validation_test.go:11-14). For a FieldError the model uses its cause's message, the same text that `Map()` stores for it (validation_test.go:36-61, 82-87).
- `t.Parallel()` is left out. It is test-harness concurrency, and validators run strictly in sequence.
- Go's dynamic `error` interface is replaced by the `Error` datatype. An element that is not a FieldError, including a nested ErrorList, is known only by its message, and it is grouped under "".
- Idempotence of `Error()` and `Map()` is not stated as a lemma. `Render` is a function of the list alone. `Grouping.Map` is a method, but its result is fixed by `ensures m == GroupByField(l)`, so repeated calls give equal maps.
