# appendr core in Dafny

appendr is a small web service that keeps append-only data "bins": each bin
is a document (a JSON array or a CSV file) stored in a GitHub gist, and each
POST of a record to the bin is queued and later appended to that document.
This project models the deterministic core of `appendr.py` that decides what
gets appended and where, and proves what it promises:

- **Parameter validation and defaulting** (module `Validation`):
  `validate_non_empty_string`, `validate_element_of_list`,
  `validate_input_param`, and the three defaulting calls at the start of
  `Bin.create`. The parameter dictionary, which `validate_input_param`
  fills in place, is a `PyValues.Dict` object whose `entries` the methods
  update. Raised `ValueError`s become `Outcome`/`Result` failures.
  Python's `in` on a list compares with `==`, where `True == 1` and
  `False == 0`; `PyValues.PyEq` models that.
- **CSV column order and row extraction** (module `CsvKeys`, with the
  code-point string order and the sort in `StringOrder`):
  - `get_data_csv_key_list` takes the dictionary's keys in some order,
    removes `date_created`, sorts and reinserts it first. The keys come in
    an arbitrary order; the proofs show that the result does not depend on
    that order.
  - `get_values_sorted` projects a record onto a key list.
- **The CSV writer** (module `CsvWriter`): the rows that
  `csv.writer(output, delimiter=';', quotechar='"', quoting=csv.QUOTE_MINIMAL)`
  writes, and a reader for them. Together they give a round-trip theorem.
- **The append codec** (module `DocumentCodec`, seed documents in
  `OutputFormats`):
  - `append_data_` renders `date_created` with the bin's `strftime`
    format in the caller's dictionary. Python 2's `strftime` reads its
    format as a byte string, so a `unicode` format with a non-ASCII
    character raises `UnicodeEncodeError` first, for either output format,
    and the dictionary is left unchanged.
  - For CSV, it writes the header only when the document is still the seed
    `date_created\n`, and always writes one data row.
  - For JSON, it appends the record to the parsed array.
- **Queue sharding** (module `Sharding`): `compute_queue_number_from_bin_id`,
  a running `(acc + ord(ch)) % n` over the bin id. `%` is Python's, so the
  remainder takes the sign of the divisor. The handler calls it with
  `n = 10`.

Clock, date formatting and JSON printing are parameters:
- `strftime` is a function `(Instant, format) -> string`.
- The `json` library is a pair of functions, `loads` and `dumps`. The JSON
  lemmas require two things of it: what `dumps` prints, `loads` reads back
  (`DocumentCodec.RoundTrips`); and `JsonTwoAppends` also requires that the
  seed document `[]\n` parses as the empty array.
- Python 2's `csv` writer converts every field with `str()`. For the
  request's `unicode` keys and values this raises `UnicodeEncodeError` as
  soon as one holds a non-ASCII character. The rendered `date_created` is a
  byte string and is exempt. `append_data_` then fails with
  `UnicodeEncode`: on a value at any append, and on a key only on the first
  append, the only time the header is written. The same error stands for
  the `strftime` failure on a non-ASCII datetime format.

## Model

| member | source | states |
|---|---|---|
| Validation.ValidateNonEmptyString | appendr.py:29-31 | passes exactly when the value is a non-empty string; otherwise fails with the parameter's name and value |
| Validation.Contains | appendr.py:34 | `value in possible_values` holds exactly when some element is Python-equal to the value |
| Validation.ValidateElementOfList | appendr.py:33-35 | passes exactly when some allowed element is Python-equal to the value; otherwise fails naming the parameter, value and list |
| Validation.ValidatedParams | appendr.py:37-49 | fails exactly when a required name is missing or a present value fails its check, with the matching error. A present value leaves the params unchanged. An absent one adds `name ↦ default` and nothing else; every old entry is kept |
| Validation.ValidateInputParam | appendr.py:37-49 | updates the dictionary in place to what `ValidatedParams` gives, or leaves it unchanged and reports the error |
| Validation.ApplyRules | appendr.py:148-150 | a run of validations never drops or changes an existing entry |
| Validation.ApplyRulesAddsOnlyNamed | appendr.py:148-150 | the only keys a run of validations adds are the names of its rules, each with that rule's default |
| Validation.ApplyRulesPassed | appendr.py:148-150 | after a run that passes, every rule's name is present; it holds the caller's value if one was given, else the default |
| Validation.BinCreateRulesEstablishSettings | appendr.py:148-152 | once `Bin.create`'s three validations pass, the backend is `gist`, the format is one of the output formats, and the datetime format is a non-empty string |
| Validation.CreateBinSettings | appendr.py:148-157 | the dictionary becomes the result of the three validations. It fails exactly when one of them fails. Otherwise it yields the backend, format and datetime format the new bin gets |
| Validation.BinCreateDefaults | appendr.py:148-150 | with no parameters, `Bin.create` fills in `gist`, `json` and `%Y-%m-%dT%H:%M:%SZ` |
| OutputFormats.FormatOf | appendr.py:271 | each accepted output format name is the name of exactly the format it selects |
| StringOrder.LessIrreflexive | appendr.py:54 | no key sorts before itself |
| StringOrder.LessAsymmetric | appendr.py:54 | two keys never sort before each other |
| StringOrder.LessTransitive | appendr.py:54 | the key order is transitive |
| StringOrder.LessTotal | appendr.py:54 | any two distinct keys are ordered one way or the other |
| StringOrder.Insert | appendr.py:54 | inserting into a sorted list gives a sorted list with one more occurrence of the element |
| StringOrder.Sort | appendr.py:54 | `list.sort()` gives a sorted permutation of its input |
| StringOrder.SortedKeys | appendr.py:54 | a set of keys has a strictly ascending listing of exactly its members |
| StringOrder.StrictlySortedUnique | appendr.py:54 | two strictly ascending lists with the same members are equal, so the sorted keys do not depend on the dictionary's key order |
| StringOrder.PermutationKeepsDistinct | appendr.py:52-54 | reordering a list without duplicates leaves it without duplicates |
| CsvKeys.CsvKeyOrder | appendr.py:51-56 | the column list has one entry per key, each key once, `date_created` first and the other keys strictly ascending |
| CsvKeys.DictKeys | appendr.py:52 | `params.keys()` lists every key of the dictionary exactly once |
| CsvKeys.RemoveFirst | appendr.py:53 | `list.remove` fails exactly when the item is absent; otherwise it removes the first occurrence and keeps the rest in order |
| CsvKeys.RemoveFirstFromDistinct | appendr.py:53 | removing a key from a duplicate-free list leaves exactly the other keys, still without duplicates |
| CsvKeys.CsvKeyList | appendr.py:51-56 | `get_data_csv_key_list` fails exactly when `date_created` is not a key; otherwise it returns the column order above, whatever order `keys()` gave |
| CsvKeys.ValuesInKeyOrder | appendr.py:64-68 | `get_values_sorted` succeeds exactly when every key is in the record, and then returns the record's values in key order. Otherwise it raises `KeyError` for a missing key |
| CsvWriter.EncodeRow | appendr.py:95 | every written row ends with the line terminator |
| CsvWriter.FieldRoundTrip | appendr.py:95 | an encoded field, followed by a delimiter or the end of the row, reads back as the original field |
| CsvWriter.JoinRoundTrip | appendr.py:95 | a delimited list of encoded fields reads back as the original fields |
| CsvWriter.RowRoundTrip | appendr.py:95 | every row the writer writes reads back as exactly the fields it was given |
| CsvWriter.PlainFieldUnchanged | appendr.py:95 | under QUOTE_MINIMAL a field without delimiter, quote or line break is written as is |
| DocumentCodec.AppendData | appendr.py:88-111 | returns the new content or the error `append_data_` raises. The caller's dictionary is unchanged when `date_created` is missing or not a datetime, or when `strftime` cannot encode the format; otherwise `date_created` is left rendered in it, even when the append raises afterwards |
| DocumentCodec.AppendFailsExactly | appendr.py:88-111 | the append fails exactly in these cases: the record lacks a `date_created` datetime; the datetime format is non-ASCII; for JSON, the old content is not an array; for CSV, a value other than `date_created` is non-ASCII, or, on the first append, a key is. A missing `date_created` raises `KeyError`, a non-ASCII format `UnicodeEncode`, and every CSV failure of a dated record is `UnicodeEncode` |
| DocumentCodec.WritableColumns | appendr.py:98-101 | the writer can write the header exactly when every key is ASCII, and the data row exactly when every value other than `date_created` is |
| DocumentCodec.StampedKeys | appendr.py:89 | rendering the creation time keeps the record's keys and every other value |
| DocumentCodec.CsvRowColumns | appendr.py:92-101 | the data row has one value per key: the rendered creation time first, then each other key's value in column order |
| DocumentCodec.SeedAppendResult | appendr.py:97-104 | on the seed document the result is the header row plus the data row when the format, the keys and the values are ASCII, and `UnicodeEncode` otherwise |
| DocumentCodec.CsvFirstAppend | appendr.py:97-104 | on the seed document the result is as above; the header and the row read back as the columns and the values; the seed line is not kept |
| DocumentCodec.CsvLaterAppend | appendr.py:100-106 | on any other document the result is the old content plus one data row when the format and the values are ASCII, and `UnicodeEncode` otherwise; the old content is a strict prefix, and the rest reads back as that row |
| DocumentCodec.CsvHeaderWrittenOnce | appendr.py:97-106 | a CSV append of a dated record whose values, and on the seed whose keys, are ASCII succeeds exactly when the format is ASCII, and the document is then never the seed again, so no second header is written |
| DocumentCodec.JsonAppend | appendr.py:108-111 | the append succeeds exactly when the format is ASCII, and the result then parses as the old array with the rendered record added as its last element |
| DocumentCodec.JsonTwoAppends | appendr.py:108-111 | two appends to a new JSON bin read back as the two records in order; with a non-ASCII format the first append already raises |
| DocumentCodec.TwoColumns | appendr.py:51-56 | a record with one field besides `date_created` has the columns `date_created` then that field |
| DocumentCodec.PlainPairRow | appendr.py:95 | two values that need no quoting are written as `a;b` and the line terminator |
| DocumentCodec.PairAppend | appendr.py:91-106 | appending `{date_created, name: value}` with no text needing quotes writes `time;value` after the old content, or after the header `date_created;name` when the old content is the seed. It raises `UnicodeEncode` instead when the format or the value is non-ASCII, or, on the seed, when the name is |
| DocumentCodec.CsvTwoAppends | appendr.py:91-106 | a new CSV bin that receives two such records with ASCII text holds exactly the header and the two rows, in order; with a non-ASCII format the first append already raises |
| Sharding.PyMod | appendr.py:116 | Python's `%` differs from the dividend by a multiple of `n`, and lies in `[0, n)` for positive `n` and in `(n, 0]` for negative `n` |
| Sharding.PyModAdd | appendr.py:116 | reducing a partial sum modulo `n` first does not change the final remainder |
| Sharding.QueueIndexStep | appendr.py:115-116 | one loop step takes the prefix's queue index to the index of the prefix extended by one character |
| Sharding.ComputeQueueName | appendr.py:113-118 | returns `"queue" + str(k)` with `k` the character-code sum modulo `n`, in `[0, n)` when `n > 0`. It raises `ZeroDivisionError` exactly when `n == 0` and the id is non-empty |
| Sharding.DigitsRoundTrip | appendr.py:118 | `str` of a natural number reads back as that number |
| Sharding.QueueNamesDistinct | appendr.py:118 | different queue numbers give different queue names |
| Sharding.TenQueues | appendr.py:374 | with ten queues every bin id, the empty one included, goes to `queue` followed by one digit, that is `queue0` … `queue9` |
| Sharding.CharSumConcat | appendr.py:115-116 | the character-code sum of a concatenation is the sum of the parts' sums |
| Sharding.CharSumPermutation | appendr.py:115-116 | the character-code sum depends only on which characters occur and how often |
| Sharding.SameCharactersSameQueue | appendr.py:113-118 | bin ids made of the same characters, in any order, go to the same queue |

## Left out

- The HTTP handlers (`BinHandler`, `DataHandler`, `AppendHandler`, `CleanupHandler`), the CORS headers, content negotiation and the route table. They are request and response plumbing.
- `GistBin.append_data` and `GistBin.initialize`. They make GitHub HTTP calls; the model starts from the fetched content that `append_data_` receives.
- `Bin.generate_name`, the datastore queries and deletes, and `taskqueue.add`. They depend on randomness and external services. `CreateBinSettings` stops at the values `Bin.create` copies onto the bin.
- Task status tracking, retries and status-message truncation. The code has none: the append task swallows every exception.
- `strftime`, `dateutil.parser.parse`, `relativedelta` and `datetime.utcnow` are clock and library calls, passed in as the `Strftime` function or left out. The `Strftime` function is total; the one way Python 2's `strftime` raises here, a non-ASCII format, is modelled in `DocumentCodec.AppendSpec`.
- `get_request_params` and `serialize_bins`. They are body parsing and JSON printing with no independent logic.
- The `json` library is a parameter. Its `indent=2` layout is not modelled. Its failures (malformed text, or a document that is not an array) are merged into one `NotAJsonArray` error.
- DocumentCodec.Cell: record values are strings, plus the datetime under `date_created`. Numbers, lists and nested objects that a JSON body could carry are not modelled. Likewise `JsonLib.loads` can only yield an array of such flat records: an existing JSON document that is an array of other values, such as `[1]`, parses in Python and the append succeeds, but the model cannot represent it.
- PyValues.Value: parameters for `Bin.create` are strings, booleans, integers or null. A JSON body could also carry floats, lists and objects. `Bin.create`'s three checks reject all of them, so this loses no behaviour.
- DocumentCodec.CellText: any datetime other than `date_created` is written the way `str(datetime)` writes one without microseconds. The code never passes such a value.
- DocumentCodec.AppendData: the format is the enumeration `Bin.create` validated, so the `None` that `append_data_` returns for an unknown format cannot arise and is not modelled.
- Validation.ValidateInputParam: returns only the outcome. The dictionary it also returns is the caller's own, which the method updates in place.
- CsvWriter.EncodeRow: text is modelled as Unicode characters. The Python 2 writer also cuts a field short at its first NUL character; that cut is not modelled. Its `UnicodeEncodeError` on non-ASCII text is modelled in `DocumentCodec.AppendSpec`, not here.
- DocumentCodec.AppendData: a field holding a NUL character is written whole, whereas Python 2's writer would cut it at the NUL.
- CsvWriter.EncodeRow: follows the `csv` writer of Python 2 with this dialect. Rows end in the module's default terminator `\r\n`, not `\n`. A one-field row holding the empty string is written as `""`. Other dialect options are not modelled.
- Sharding.ComputeQueueName: characters are Unicode scalar values, so `ord` of a character outside the Basic Multilingual Plane is its code point. A narrow Python 2 build would see two surrogates instead.
