# A verified model of APOC's text, map and Cypher-runner procedures

This project models three parts of the APOC procedure library for Neo4j in
Dafny and proves their behaviour:

- **The text functions of `apoc.text`:**
  - padding (`lpad`, `rpad`);
  - code units and their hexadecimal form (`charAt`, `code`, `hexValue`,
    `hexCharAt`);
  - `join` and the `null` guards of `regreplace` and `split`;
  - Levenshtein `distance` and `fuzzyMatch`;
  - the `toCypher` serialiser for non-graph values.
- **The map functions of `apoc.map`:** `groupBy`, `groupByMulti`, `values`,
  `mergeList`, `removeKey`, `removeKeys`, `clean`, `updateTree` with its
  recursive `visit`, `flatten`, and `sortedProperties`.
- **The sequential skeleton of `apoc.cypher`:**
  - `partitionColl` and the batching of `parallel2`, with `parallelParams`;
  - the query builders `withParamMapping`, `withParamsAndIterator` and
    `compiled`;
  - the branch choice of `apoc.when` and `apoc.case`;
  - the multi-statement runner behind `runMany` and the schema-file runners:
    - the text is cut into statements;
    - the statements are classified, and a mixed run is rejected;
    - each statement's rows are numbered and followed by a statistics row;
  - the `QueueBasedSpliterator` that reads the runner's queue until the
    tombstone.

## Modelling conventions

- **Java values:**
  - A Java `String` is a sequence of UTF-16 code units (`Lang.JString`).
  - `null` is `None` of an `Option`.
  - A thrown exception is the `Err` case of a `Result`, which names the
    exception class.
  - Integer widths and casts are written out: `Lang.ToInt32` is `(int)` and
    `Lang.JavaDiv` is Java's truncating `/`.
- **Maps:**
  - Cypher values are the datatype `Values.Value`.
  - A `Map` is a sequence of entries in iteration order with distinct keys;
    `Values.Put` and `Values.Get` behave as `LinkedHashMap.put` and `get`.
  - `flatten` builds a `HashMap`, whose order is unspecified, so its result is
    a Dafny `map`.
- **Loops:**
  - Each loop of the source that builds a result step by step is a `method`
    with a loop.
  - Its postcondition ties the result to a specification function of the
    whole input. Lemmas about that function state what the source promises.
- **The runner's mutable objects** are classes with `modifies` frames:
  - the blocking queue (`RowQueue`, a sequence that `put`, `offer` and `poll`
    update);
  - the `RowResult` objects, compared by identity with the tombstone;
  - the spliterator (`QueueSpliterator`, with the fields `entry` and `queue`).
- **Everything `Strings.java`, `Maps.java` and `Cypher.java` call out to is a parameter:**
  - the query engine;
  - the regular-expression statement classifier;
  - the clock;
  - whether a timed `offer` succeeded and whether a `poll` was interrupted;
  - `Util.quote`, `Util.param`, `Util.withMapping` and `Util.COMPILED`;
  - `String.replaceAll` and `String.split`.

## Model

| member | source | states |
|---|---|---|
| Lang.ToInt32 | src/main/java/apoc/text/Strings.java:195 | `(int)` on a `long`: the result is a 32-bit value congruent to the input modulo 2^32, and equal to it when it fits |
| Lang.JavaDiv | src/main/java/apoc/cypher/Cypher.java:287 | Java integer division: it agrees with Euclidean division for non-negative operands, the sign of the quotient follows the signs of the operands, and its magnitude is `|a| / |b|` rounded down, so it truncates toward zero |
| Lang.JavaDivTruncates | src/main/java/apoc/cypher/Cypher.java:287 | a negative quotient is rounded toward zero: `-7 / 2` is -3 in Java, where Euclidean division gives -4 |
| Lang.JoinElement | src/main/java/apoc/text/Strings.java:93 | `String.join`: element i stands at its offset in the joined text |
| Lang.JoinDelimiter | src/main/java/apoc/text/Strings.java:93 | `String.join`: exactly the delimiter stands between elements i and i+1 |
| Lang.JoinLength | src/main/java/apoc/text/Strings.java:93 | `String.join`: the joined text ends with the last element, so there is no trailing delimiter |
| Lang.JoinSnoc | src/main/java/apoc/text/Strings.java:93 | appending an element appends the delimiter and the element, except to an empty list |
| Lang.DecimalRoundTrip | src/main/java/apoc/text/Strings.java:435 | `Long.toString` parses back to the number |
| Values.Get | src/main/java/apoc/map/Maps.java:47 | `Map.get` finds a value exactly for the keys present, and the entry is in the map |
| Values.GetAt | src/main/java/apoc/map/Maps.java:47 | in a map with distinct keys, `get` of the i-th key is the i-th value |
| Values.Put | src/main/java/apoc/map/Maps.java:25 | `LinkedHashMap.put`: the key now maps to the value and every other key is unchanged; a new key goes last, and an existing key keeps its place |
| Values.PutDistinct | src/main/java/apoc/map/Maps.java:25 | `put` keeps the keys distinct |
| Values.PutNew | src/main/java/apoc/map/Maps.java:25 | putting a new key appends exactly one entry |
| Values.GetOrNull | src/main/java/apoc/map/Maps.java:186 | `get` returning `null` for a missing key |
| Values.GetPutAll | src/main/java/apoc/map/Maps.java:111 | `putAll(n)`: a key of `n` takes `n`'s value, and any other key keeps its old value |
| Values.PutAllDistinct | src/main/java/apoc/map/Maps.java:111 | `putAll` keeps the keys distinct |
| Values.PutAllKeys | src/main/java/apoc/map/Maps.java:111 | a key is in the result of `putAll` exactly when it is in either map |
| Values.Without | src/main/java/apoc/map/Maps.java:158 | `keySet().removeAll(ks)`: exactly the entries whose key is not in `ks` remain |
| Values.GetWithout | src/main/java/apoc/map/Maps.java:158 | after removal, a removed key is absent and every other key keeps its value |
| Values.WithoutIsSubsequence | src/main/java/apoc/map/Maps.java:157-158 | removal keeps the remaining entries in their original order |
| Values.IntToStringInjective | src/main/java/apoc/map/Maps.java:25 | distinct integer ids give distinct `toString` keys |
| Values.Fold | src/main/java/apoc/map/Maps.java:243 | the case fold of the case-insensitive order: the identity when case is respected, and upper-case ASCII letters become lower case |
| Values.LexTotal | src/main/java/apoc/map/Maps.java:242-246 | the string order is total |
| Values.LexTransitive | src/main/java/apoc/map/Maps.java:242-246 | the string order is transitive |
| Values.LexAntisymmetric | src/main/java/apoc/map/Maps.java:245 | `String.compareTo` is antisymmetric |
| Values.InsertSorted | src/main/java/apoc/map/Maps.java:242-246 | inserting into a sorted list keeps it sorted |
| Values.Insert | src/main/java/apoc/map/Maps.java:242-246 | insertion adds exactly one element: the multiset grows by that element |
| Values.SortStrings | src/main/java/apoc/map/Maps.java:242-246 | `Collections.sort`: the result is sorted and a permutation of the input |
| Values.InsertStable | src/main/java/apoc/map/Maps.java:242-246 | inserting the next input string after its run of equal strings keeps a sort stable |
| Values.SortStringsStable | src/main/java/apoc/map/Maps.java:242-246 | `Collections.sort` is stable: strings that compare as equal keep their input order |
| Strings.RegReplace | src/main/java/apoc/text/Strings.java:46-51 | `null` exactly when some argument is `null`, otherwise `replaceAll` of the arguments |
| Strings.Split | src/main/java/apoc/text/Strings.java:55-61 | `null` exactly when some argument is `null`, otherwise `String.split` with the limit narrowed to `int` |
| Strings.RenderAll | src/main/java/apoc/text/Strings.java:93 | each element renders as itself, and a `null` element as "null" |
| Strings.JoinTexts | src/main/java/apoc/text/Strings.java:87-94 | `join` is `null` exactly when the list or the delimiter is `null` |
| Strings.JoinTextsLayout | src/main/java/apoc/text/Strings.java:87-94 | the elements appear in order at their offsets, separated by exactly the delimiter, with nothing before the first or after the last |
| Strings.JoinWithNullElement | src/test/java/apoc/text/StringsTest.java:134-137 | `join(["Hello", null], " ")` is "Hello null" |
| Strings.FilledChars | src/main/java/apoc/text/Strings.java:196-197 | `Arrays.fill` of a new array: every cell holds the character |
| Strings.LPad | src/main/java/apoc/text/Strings.java:191-200 | a text at least `count` long is returned as it is. Otherwise: a negative `(int)` size throws `NegativeArraySizeException`; an empty `delim` throws `StringIndexOutOfBoundsException`; else the result has length `(int)count`, ends with the text, and every added character is `delim[0]` |
| Strings.RPad | src/main/java/apoc/text/Strings.java:204-212 | a text at least `count` long is returned as it is. Otherwise: the same two exceptions; else the result starts with the text and is padded with `delim[0]` up to the narrowed count |
| Strings.LPadToWidth | src/test/java/apoc/text/StringsTest.java:280-285 | for an `int` count and a non-empty `delim`: the width is `max(len, count)`, the text comes last, and the padding is `delim[0]` |
| Strings.RPadToWidth | src/test/java/apoc/text/StringsTest.java:287-292 | for an `int` count and a non-empty `delim`: the width is `max(len, count)`, the text comes first, and the padding is `delim[0]` |
| Strings.CharAt | src/main/java/apoc/text/Strings.java:387-392 | `null` exactly for a `null` or empty text, or a `null`, negative or too-large index; otherwise the code unit at the index |
| Strings.Code | src/main/java/apoc/text/Strings.java:396-401 | `null` exactly for a `null`, negative or >0xFFFF code point; otherwise one character whose `charAt(0)` is the code point |
| Strings.PadHexSpec | src/main/java/apoc/text/Strings.java:408 | `%0wX` on a value below 16^w: exactly w hex digits that parse back to the value |
| Strings.ParseHexDigits | src/main/java/apoc/text/Strings.java:408 | the hexadecimal digits of a number parse back to it |
| Strings.HexValue | src/main/java/apoc/text/Strings.java:405-409 | `hexValue` is `null` exactly for `null` |
| Strings.HexValueOfNonNegative | src/main/java/apoc/text/Strings.java:405-409 | a non-negative value gives 4 hex digits up to 0xFFFF, 8 up to 0xFFFFFFFF and 16 beyond, and they parse back to the value |
| Strings.HexValueOfNegative | src/main/java/apoc/text/Strings.java:405-409 | a negative value is formatted as its `(int)` narrowing: 4 to 8 hex digits, whose value is the input modulo 2^32 |
| Strings.HexCharAtSpec | src/main/java/apoc/text/Strings.java:414-416 | `hexCharAt` is `null` exactly when `charAt` is; otherwise it is 4 hex digits that parse to `charAt` |
| Strings.HexCharAt | src/main/java/apoc/text/Strings.java:414-416 | `hexCharAt` is `null` exactly when `charAt` is, and otherwise 4 hex digits |
| TextDistance.Min3 | src/main/java/apoc/text/Strings.java:117 | the minimum of the three edit choices |
| TextDistance.Lev | src/main/java/apoc/text/Strings.java:117 | `StringUtils.getLevenshteinDistance`: the edit count is at most the two lengths together |
| TextDistance.LevSelf | src/main/java/apoc/text/Strings.java:117 | a text is at distance 0 from itself |
| TextDistance.LevZeroIff | src/main/java/apoc/text/Strings.java:117 | the distance is 0 if and only if the texts are equal |
| TextDistance.LevSymmetric | src/main/java/apoc/text/Strings.java:117 | the distance is symmetric |
| TextDistance.LevLengthDifference | src/main/java/apoc/text/Strings.java:117 | the distance is at least the difference in length |
| TextDistance.LevAtMostLonger | src/main/java/apoc/text/Strings.java:117 | the distance is at most the longer length |
| TextDistance.LevAtMostMismatches | src/main/java/apoc/text/Strings.java:117 | for equal lengths, the distance is at most the number of differing positions |
| TextDistance.MismatchesOneChange | src/main/java/apoc/text/Strings.java:117 | replacing one code unit leaves at most one differing position |
| TextDistance.LevCommonPrefix | src/main/java/apoc/text/Strings.java:117 | a common prefix does not increase the distance |
| TextDistance.LevDeleteFirst | src/main/java/apoc/text/Strings.java:117 | dropping the first character is distance 1 |
| TextDistance.Distance | src/main/java/apoc/text/Strings.java:113-118 | `distance` is `null` exactly when an argument is `null`; otherwise it is the Levenshtein distance `Lev` of the two texts, which is 0 exactly for equal texts and at most the longer length |
| TextDistance.DistanceOfOneDeletion | src/main/java/apoc/text/Strings.java:113-118 | one deleted character anywhere is distance 1 |
| TextDistance.DistanceOfLevenshtein | src/test/java/apoc/text/StringsTest.java:193-200 | `distance("Levenshtein", "Levenstein")` is 1 |
| TextDistance.MaxDistanceAllowed | src/main/java/apoc/text/Strings.java:137 | the edits allowed for a first text of length n: 0 for n < 3, 1 for 3 <= n < 5, 2 for n >= 5 |
| TextDistance.FuzzyMatch | src/main/java/apoc/text/Strings.java:132-142 | `null` exactly when an argument is `null`; otherwise true exactly when the Levenshtein distance is at most the edits allowed for the length of `text1`; for a `text1` shorter than 3, a match means equality |
| TextDistance.FuzzyMatchLengthGap | src/main/java/apoc/text/Strings.java:132-142 | matching texts differ in length by at most the allowed distance |
| TextDistance.FuzzyMatchFewSubstitutions | src/main/java/apoc/text/Strings.java:132-142 | equal-length texts that differ in no more places than allowed match |
| TextDistance.FuzzyMatchOneSubstitution | src/main/java/apoc/text/Strings.java:132-142 | a text of at least 3 code units matches itself with any one code unit replaced |
| TextDistance.FuzzyMatchShortText | src/test/java/apoc/text/StringsTest.java:205 | "Th" does not match "th" |
| TextDistance.FuzzyMatchCase | src/test/java/apoc/text/StringsTest.java:208 | "The" matches "the" |
| TextToCypher.KeepRejectsSpec | src/main/java/apoc/text/Strings.java:431 | for a non-null value and non-null keep values, `keepValues` rejects exactly when some keep value of a comparable class differs from the value |
| TextToCypher.KeepRejects | src/main/java/apoc/text/Strings.java:431 | no keep values reject nothing; an exception is only `NullPointerException`, where the value or a keep value is `null`; a rejection needs a non-null value and a keep value of a comparable class that differs from it |
| TextToCypher.KeepRejectsNull | src/main/java/apoc/text/Strings.java:431 | a `null` value with a primitive keep value throws `NullPointerException` from `equals`; otherwise it is not rejected |
| TextToCypher.SkippedValue | src/main/java/apoc/text/Strings.java:432 | a value listed in `skipValues` that `keepValues` lets through renders as `null` |
| TextToCypher.KeyKept | src/main/java/apoc/text/Strings.java:456-461 | without `keepKeys` and `skipKeys` every key is kept; a key in `skipKeys` is dropped, and so is a key missing from `keepKeys` |
| TextToCypher.ToCypher | src/main/java/apoc/text/Strings.java:430-468 | `toCypher` throws only `NullPointerException`. A value that renders is not among the skip values and is not rejected by the keep values. A rendered list is bracketed by `[` and `]`, a rendered map by `{` and `}`. `TextToCypher.ListText` and `TextToCypher.MapText` give the text between the brackets |
| TextToCypher.RenderItems | src/main/java/apoc/text/Strings.java:437 | the elements' renderings throw only `NullPointerException`, and there are at most as many parts as elements |
| TextToCypher.RenderFields | src/main/java/apoc/text/Strings.java:456-464 | the entries' renderings throw only `NullPointerException`, and there are at most as many fields as entries |
| TextToCypher.FieldTexts | src/main/java/apoc/text/Strings.java:465-466 | one text per field |
| TextToCypher.FieldTextsOfFields | src/main/java/apoc/text/Strings.java:465-466 | each text is `quote(k) + ":" + rendering` for the key `k` of one of the fields |
| TextToCypher.FieldKeys | src/main/java/apoc/text/Strings.java:460-463 | the keys of the rendered fields, in order |
| TextToCypher.RendersWithoutConfig | src/main/java/apoc/text/Strings.java:430-468 | with the empty configuration, every non-graph value renders to text |
| TextToCypher.ItemsWithoutConfig | src/main/java/apoc/text/Strings.java:437 | with the empty configuration, a list renders every element, in order |
| TextToCypher.ItemsSelected | src/main/java/apoc/text/Strings.java:437 | when the list renders, no element threw, and the list's parts are the non-`null` renderings of its elements, in list order |
| TextToCypher.FieldsWithoutConfig | src/main/java/apoc/text/Strings.java:456-466 | with the empty configuration, every key of a map gets a field |
| TextToCypher.FieldsSelected | src/main/java/apoc/text/Strings.java:456-466 | the fields are exactly the entries whose key `keepKeys`/`skipKeys` keep and whose value renders non-`null`; each key occurs once, with its value's rendering |
| TextToCypher.MapRendering | src/main/java/apoc/text/Strings.java:456-466 | the field keys are sorted and a permutation of the selected keys, and each text is `quote(k) + ":" + rendering` |
| TextToCypher.MapText | src/main/java/apoc/text/Strings.java:455-466 | a map renders exactly when neither the keep values nor the skip values turn it into `null` and every kept entry's value renders without an exception. Its text is then `{`, the field texts joined by `,`, and `}`. The fields are the kept keys whose values render, sorted, each written `quote(k) + ":" + rendering` |
| TextToCypher.ListText | src/main/java/apoc/text/Strings.java:437 | a list renders exactly when neither the keep values nor the skip values turn it into `null` and no element throws. Its text is then `[`, the non-`null` renderings of the elements in list order joined by `,`, and `]` |
| TextToCypher.PrimitiveExamples | src/main/java/apoc/text/Strings.java:434-436 | `null` renders as "null", a number and a boolean by `toString`, and a string in single quotes |
| TextToCypher.ListExample | src/test/java/apoc/text/StringsTest.java:554 | `[41,'bar',false,null]` |
| TextToCypher.QuoteIsNotEscaped | src/main/java/apoc/text/Strings.java:436 | a quote inside a string is not escaped, so two different lists render alike |
| TextToCypher.SortExample | src/main/java/apoc/text/Strings.java:465 | "answer" sorts before "bar" |
| TextToCypher.MapExample | src/test/java/apoc/text/StringsTest.java:552 | `{answer:41,bar:'bar'}`: the keys are sorted |
| TextToCypher.KeepValuesExample | src/test/java/apoc/text/StringsTest.java:543 | `keepValues:[42]` drops the string entry and keeps `answer:42` |
| Maps.GroupKey | src/main/java/apoc/map/Maps.java:44-53 | `getKey` is non-null exactly for a map whose property is present and non-null |
| Maps.GroupBySpec | src/main/java/apoc/map/Maps.java:21-28 | there are no more groups than values |
| Maps.FirstOccurrencesSpec | src/main/java/apoc/map/Maps.java:25 | insertion order: each key once, ordered by where it first occurs |
| Maps.GroupBy | src/main/java/apoc/map/Maps.java:21-28 | the loop computes `GroupBySpec` |
| Maps.GroupByKeys | src/main/java/apoc/map/Maps.java:21-28 | the keys of `groupBy` are distinct and are the non-null ids in order of first occurrence |
| Maps.GroupByLastWins | src/main/java/apoc/map/Maps.java:21-28 | each key maps to the last value with that id |
| Maps.GroupByMulti | src/main/java/apoc/map/Maps.java:31-42 | the loop computes `GroupByMultiSpec` |
| Maps.GroupByMultiKeys | src/main/java/apoc/map/Maps.java:31-42 | the keys are distinct and in order of first occurrence |
| Maps.GroupByMultiLists | src/main/java/apoc/map/Maps.java:31-42 | each key's list holds every value with that id, in input order, and no other key is present |
| Maps.GroupByMultiSizes | src/main/java/apoc/map/Maps.java:31-42 | the list lengths sum to the number of values with a non-null id |
| Maps.WithGroupKeyAbsent | src/main/java/apoc/map/Maps.java:31-42 | a key with no occurrence has no values |
| Maps.MapValues | src/main/java/apoc/map/Maps.java:85-92 | a `null` or empty key list gives the empty list; otherwise the loop computes `ValuesSpec` |
| Maps.ValuesAddingNulls | src/main/java/apoc/map/Maps.java:85-92 | with `addNullsForMissing`, element i is `map.get(keys[i])`, or `null` when absent |
| Maps.PresentKeys | src/main/java/apoc/map/Maps.java:89 | the keys of the list that the map contains |
| Maps.ValuesSpec | src/main/java/apoc/map/Maps.java:85-92 | there are no more values than keys |
| Maps.ValuesOfPresentKeys | src/main/java/apoc/map/Maps.java:85-92 | without `addNullsForMissing`, only present keys contribute, in key-list order |
| Maps.MergeList | src/main/java/apoc/map/Maps.java:108-114 | the loop computes `MergeSpec` |
| Maps.MergeSpec | src/main/java/apoc/map/Maps.java:108-114 | the merged map has distinct keys |
| Maps.MergeListKeys | src/main/java/apoc/map/Maps.java:108-114 | a key is merged exactly when some map holds it |
| Maps.MergeListLastWins | src/main/java/apoc/map/Maps.java:108-114 | a shared key takes its value from the last map that has it |
| Maps.RemoveKeys | src/main/java/apoc/map/Maps.java:155-160 | the copy lacks exactly the given keys, and the other entries keep their values and order |
| Maps.RemoveKey | src/main/java/apoc/map/Maps.java:147-152 | the copy lacks the key, and the other entries keep their values and order |
| Maps.Cleaned | src/main/java/apoc/map/Maps.java:164-175 | exactly the entries whose key is not listed, whose value is non-null, and whose value and its `toString` are not listed |
| Maps.Clean | src/main/java/apoc/map/Maps.java:164-175 | the loop computes `Cleaned` |
| Maps.CleanedIsSubsequence | src/main/java/apoc/map/Maps.java:164-175 | the kept entries are in the original order |
| Maps.DatumError | src/main/java/apoc/map/Maps.java:182 | a datum is rejected exactly when it is shorter than 2 or its second element is not a map |
| Maps.IndexSpec | src/main/java/apoc/map/Maps.java:180-184 | a failure is the exception of one of the data |
| Maps.BuildIndex | src/main/java/apoc/map/Maps.java:180-184 | the loop computes `IndexSpec` |
| Maps.IndexErrorPersists | src/main/java/apoc/map/Maps.java:181-183 | once a prefix of the data fails, the whole index fails with that prefix's exception |
| Maps.IndexLastWins | src/main/java/apoc/map/Maps.java:180-184 | the index is built exactly when every datum is well formed; its ids are the data's ids, and each maps to its last datum's map |
| Maps.IndexOk | src/main/java/apoc/map/Maps.java:180-184 | the index is built exactly when every datum is a list of at least an id and a map |
| Maps.IndexIds | src/main/java/apoc/map/Maps.java:180-184 | a built index holds exactly the ids of the data |
| Maps.IndexLastValue | src/main/java/apoc/map/Maps.java:183 | each id of a built index maps to the map of the last datum with that id |
| Maps.MergeValues | src/main/java/apoc/map/Maps.java:185-191 | a matched tree takes the data map's value for each of the map's keys and keeps its own for the rest |
| Maps.MergeKeys | src/main/java/apoc/map/Maps.java:185-191 | a key is in the merged tree exactly when it is in the tree, or the tree matched a data map that has the key |
| Maps.Visit | src/main/java/apoc/map/Maps.java:194-214 | visiting runs out only as `StackOverflowError`, and keeps exactly the keys of the merged tree |
| Maps.VisitEntries | src/main/java/apoc/map/Maps.java:197-212 | the visited entries fail only with `StackOverflowError` and keep their keys, in order |
| Maps.VisitValue | src/main/java/apoc/map/Maps.java:198-211 | a visit fails only with `StackOverflowError`; a map stays a map, a list stays a list, and any other value is returned unchanged |
| Maps.VisitItems | src/main/java/apoc/map/Maps.java:200-206 | a list visit fails only with `StackOverflowError` and keeps the length of the list |
| Maps.VisitEntriesEach | src/main/java/apoc/map/Maps.java:197-212 | each visited entry keeps its key, and its value is the visit of the entry's value |
| Maps.VisitEntriesFails | src/main/java/apoc/map/Maps.java:197-212 | the entries' visit fails exactly when the visit of some entry's value fails |
| Maps.VisitItemsEach | src/main/java/apoc/map/Maps.java:200-206 | a visited list keeps its length and its non-map elements, and each map element becomes its visit |
| Maps.VisitItemsFails | src/main/java/apoc/map/Maps.java:200-206 | a list's visit fails exactly when the visit of some map element fails |
| Maps.VisitValueCases | src/main/java/apoc/map/Maps.java:198-211 | a map value's visit is the visit of its map, and a list value's is the visit of its elements, success and result alike |
| Maps.VisitLevel | src/main/java/apoc/map/Maps.java:194-212 | the visit of a tree has exactly the keys of the merged tree, and each key holds the visit of the merged tree's value |
| Maps.VisitAt | src/main/java/apoc/map/Maps.java:194-212 | the map at a key path of the result is the visit of the merged map at that path, with the depth used up |
| Maps.MatchedLevel | src/main/java/apoc/map/Maps.java:185-212 | a map that matches a data map holds every key of the data map, with the data map's value visited |
| Maps.UpdateAtDepth | src/main/java/apoc/map/Maps.java:185-212 | at any depth, a map that matches a data map holds every key of the data map with its value visited; a value that is neither a map nor a list arrives unchanged |
| Maps.VisitTree | src/main/java/apoc/map/Maps.java:194-214 | the method computes `Visit` |
| Maps.VisitMerged | src/main/java/apoc/map/Maps.java:197-212 | the loop over the merged copy computes `VisitEntries`, and stops at the first overflow |
| Maps.VisitValueOf | src/main/java/apoc/map/Maps.java:197-212 | the method computes `VisitValue` |
| Maps.VisitEntriesErrorPersists | src/main/java/apoc/map/Maps.java:197 | an error in an earlier entry ends the visit |
| Maps.VisitItemsErrorPersists | src/main/java/apoc/map/Maps.java:200 | an error in an earlier list element ends the visit |
| Maps.UpdateTree | src/main/java/apoc/map/Maps.java:179-192 | a bad datum throws its exception before any visiting; otherwise the tree is visited with the index the data build. What a match carries at any depth is `Maps.UpdateAtDepth` |
| Maps.SelfNestFails | src/main/java/apoc/map/Maps.java:194-214 | a one-entry tree whose data map nests it under a new key overflows at every depth |
| Maps.NestedFails | src/main/java/apoc/map/Maps.java:197-212 | an overflowing tree placed under a new key after its own entries makes the entries' visit fail |
| Maps.UpdateTreeSelfMatch | src/main/java/apoc/map/Maps.java:185-191 | a data map that nests the matched tree under a new key makes the visit recurse without end |
| Maps.VisitUnmatched | src/main/java/apoc/map/Maps.java:194-214 | with no data, and enough depth, the tree comes back unchanged |
| Maps.VisitEntriesUnmatched | src/main/java/apoc/map/Maps.java:197-212 | with no data, each entry comes back unchanged |
| Maps.VisitValueUnmatched | src/main/java/apoc/map/Maps.java:198-211 | with no data, a value comes back unchanged |
| Maps.VisitItemsUnmatched | src/main/java/apoc/map/Maps.java:200-206 | with no data, a list comes back unchanged |
| Maps.FlattenInto | src/main/java/apoc/map/Maps.java:226-234 | the recursive loop computes `FlattenAcc` |
| Maps.FlattenAcc | src/main/java/apoc/map/Maps.java:226-234 | flattening only adds keys to the accumulator |
| Maps.Flatten | src/main/java/apoc/map/Maps.java:219-223 | `flatten` starts from the empty map and the empty prefix |
| Maps.Leaves | src/main/java/apoc/map/Maps.java:228-231 | no leaf is a map |
| Maps.LeavesUnderPrefix | src/main/java/apoc/map/Maps.java:229 | every leaf key starts with the prefix |
| Maps.FlattenPutsLeaves | src/main/java/apoc/map/Maps.java:226-234 | flattening puts the leaves, with their dotted key paths, one after the other |
| Maps.PutAllMapLastWins | src/main/java/apoc/map/Maps.java:231 | after the puts, a key is present if it was present before or is put; the last put wins |
| Maps.PutAllMapKeys | src/main/java/apoc/map/Maps.java:231 | a key is present after the puts exactly when it was present before or is put; a key not put keeps its value |
| Maps.PutAllMapLastValue | src/main/java/apoc/map/Maps.java:231 | a key that is put holds the value of its last put |
| Maps.FlattenLeaves | src/main/java/apoc/map/Maps.java:219-234 | exactly the dotted leaf paths are keys; no value is a map; each takes the last leaf with that path |
| Maps.FlattenCollision | src/main/java/apoc/map/Maps.java:226-234 | a literal key "a.b" and a nested path a → b collide, and the later one wins |
| Maps.PairKeys | src/main/java/apoc/map/Maps.java:249 | the keys of the pairs, in order |
| Maps.SortedProperties | src/main/java/apoc/map/Maps.java:238-253 | one pair `[k, map[k]]` per entry. The keys are sorted (case-insensitively when asked) and are a permutation of the map's keys. The sort is stable: keys that differ only in case keep the map's order |
| CypherQueries.MappingClauses | src/main/java/apoc/cypher/Cypher.java:215 | one `` {`k`} as `k` `` clause per key, in order |
| CypherQueries.WithParamMapping | src/main/java/apoc/cypher/Cypher.java:213-217 | no keys leave the fragment as it is; otherwise the result starts with " WITH " and ends with the fragment |
| CypherQueries.WithParamMappingLength | src/main/java/apoc/cypher/Cypher.java:214-215 | for non-empty keys, the length is that of " WITH ", the clauses and their ", " separators, and the fragment, so the declaration holds nothing else |
| CypherQueries.WithParamMappingClause | src/main/java/apoc/cypher/Cypher.java:215-216 | clause i is the `` {`k`} as `k` `` clause of key i and stands after " WITH " at its offset |
| CypherQueries.WithParamMappingSeparator | src/main/java/apoc/cypher/Cypher.java:215-216 | ", " stands between clause i and clause i + 1 |
| CypherQueries.Compiled | src/main/java/apoc/cypher/Cypher.java:219-221 | a fragment shorter than 6 throws; one starting with "cypher" in any case is kept; otherwise the result is exactly `COMPILED_PREFIX` followed by the fragment, with the length of the two together |
| CypherQueries.CompiledPrefixStartsCypher | src/main/java/apoc/cypher/Cypher.java:43 | `COMPILED_PREFIX` starts with "CYPHER" |
| CypherQueries.CompiledIdempotent | src/main/java/apoc/cypher/Cypher.java:219-221 | `compiled` applied twice is `compiled` once |
| CypherQueries.WithColumns | src/main/java/apoc/cypher/Cypher.java:355 | a name is a `WITH` column exactly when it is a parameter other than the iterator; there are no more columns than parameters |
| CypherQueries.WithColumnsInOrder | src/main/java/apoc/cypher/Cypher.java:355 | the columns keep the parameters' order, and without an iterator they are all the parameters |
| CypherQueries.ColumnMappings | src/main/java/apoc/cypher/Cypher.java:355 | one mapping per column |
| CypherQueries.WithParamsAndIterator | src/main/java/apoc/cypher/Cypher.java:352-358 | no parameters and no iterator leave the fragment as it is. Otherwise the WITH list comes first and the fragment last; with an iterator, its UNWIND stands immediately before the fragment. The length is that of the WITH clause, plus the UNWIND when there is an iterator, plus the fragment, so nothing else is added |
| CypherQueries.ParallelParams | src/main/java/apoc/cypher/Cypher.java:302-308 | empty parameters give exactly `{key: partition}`; otherwise a copy in which `key` maps to the partition and every other entry is unchanged |
| CypherQueries.ParallelParamsDistinct | src/main/java/apoc/cypher/Cypher.java:302-308 | the batch's parameter map has distinct keys |
| CypherQueries.RunOrEmptyRow | src/main/java/apoc/cypher/Cypher.java:437-441 | an empty query gives the single empty row; otherwise the query runs with its WITH mapping and the parameters |
| CypherQueries.When | src/main/java/apoc/cypher/Cypher.java:433-442 | the condition picks the query; an empty pick gives the empty row, and any other is run with the parameters (the empty map for `null`) |
| CypherQueries.WhenCase | src/main/java/apoc/cypher/Cypher.java:455-457 | an odd-length conditional list throws `IllegalArgumentException` |
| CypherQueries.Cases | src/main/java/apoc/cypher/Cypher.java:460-474 | an exception is `NullPointerException` (a `null` condition) or `ClassCastException`; a run statement gets the parameters; the single empty row comes only from an empty else query |
| CypherQueries.NullQuery | src/main/java/apoc/cypher/Cypher.java:466 | a `null` query runs `null` itself exactly when there are no parameters; otherwise "null" is appended to the `WITH` mapping |
| CypherQueries.CaseOfNullQuery | src/main/java/apoc/cypher/Cypher.java:460-467 | with parameters, a true condition with a `null` query runs " WITH …null" |
| CypherQueries.CasesFirstTrue | src/main/java/apoc/cypher/Cypher.java:459-468 | the query paired with the first true condition runs, whatever follows |
| CypherQueries.CasesNoneTrue | src/main/java/apoc/cypher/Cypher.java:459-474 | with no true condition, the else query is used as `when(false, …)` would use it |
| CypherQueries.CaseOfOnePair | src/main/java/apoc/cypher/Cypher.java:452-475 | `case` with one pair agrees with `when`, except that an empty chosen if-query is still run |
| CypherBatches.ChunksConcat | src/main/java/apoc/cypher/Cypher.java:285-300 | the partitions put back together are the input |
| CypherBatches.ChunksSizes | src/main/java/apoc/cypher/Cypher.java:285-300 | no partition is empty or larger than the batch size, and all but the last are full |
| CypherBatches.ChunksCount | src/main/java/apoc/cypher/Cypher.java:285-300 | the number of partitions is the input size divided by the batch size, rounded up |
| CypherBatches.ChunksFull | src/main/java/apoc/cypher/Cypher.java:290-296 | a full batch in front is cut off as the first partition |
| CypherBatches.Chunks | src/main/java/apoc/cypher/Cypher.java:289-299 | no partitions exactly for an empty list; the first partition is the first batch-size elements, or the whole list when shorter |
| CypherBatches.BatchSize | src/main/java/apoc/cypher/Cypher.java:287 | `max(total / partitions, 1)` with Java's division: at least 1; the quotient when it is at least 1; 1 when the total is below a positive count, and 1 for a negative count |
| CypherBatches.PartitionColl | src/main/java/apoc/cypher/Cypher.java:285-300 | zero partitions throw `ArithmeticException`; otherwise the loop emits exactly the chunks of the batch size |
| CypherBatches.Partition | src/main/java/apoc/cypher/Cypher.java:289-299 | the loop cuts the list into consecutive chunks of the batch size, the last one possibly shorter |
| CypherBatches.Parallel2Sizing | src/main/java/apoc/cypher/Cypher.java:322-328 | `max(total / PARTITIONS, 1)`, clamped to `MAX_BATCH` (10000), in which case the partition count is `total / MAX_BATCH + 1` |
| CypherBatches.Parallel2Batches | src/main/java/apoc/cypher/Cypher.java:322-342 | the submitted batches put back together are the collection, each has 1 to `MAX_BATCH` elements, all but the last are full, and under clamping there are at most `partitions` batches |
| CypherBatches.SubmitBatches | src/main/java/apoc/cypher/Cypher.java:330-342 | the futures are created in input order, one per chunk of the batch size |
| CypherBatches.CollectRows | src/main/java/apoc/cypher/Cypher.java:343-349 | the futures' rows are concatenated in submission order |
| CypherBatches.BatchRows | src/main/java/apoc/cypher/Cypher.java:343-349 | the first batch's rows come first, in engine order |
| CypherBatches.Parallel2Spec | src/main/java/apoc/cypher/Cypher.java:311-350 | for an engine that does not fail: a `null` parameter map runs the fragment with no parameters; an exception is a `RuntimeException`, thrown exactly when the parameters lack the key or its value is not a list |
| CypherBatches.Parallel2 | src/main/java/apoc/cypher/Cypher.java:311-350 | `parallel2` as `Parallel2Spec`, for an engine that does not fail: a `null` parameter map runs the fragment; a missing key or a non-collection value throws with the source's message; otherwise the batches' rows, in order |
| CypherStatements.DelimiterLength | src/main/java/apoc/cypher/Cypher.java:121 | the delimiter `;\r?\n` has length 2 or 3 and starts with a semicolon |
| CypherStatements.Pieces | src/main/java/apoc/cypher/Cypher.java:121-123 | there is always at least one piece |
| CypherStatements.Statements | src/main/java/apoc/cypher/Cypher.java:121-123 | a non-empty first piece is the first statement |
| CypherStatements.StatementsArePieces | src/main/java/apoc/cypher/Cypher.java:121-123 | the statements are the pieces, less at most a skipped empty first piece and an empty last piece |
| CypherStatements.FirstPieceIsPrefix | src/main/java/apoc/cypher/Cypher.java:121-123 | the first statement piece is a prefix of the text |
| CypherStatements.PiecesHaveNoDelimiter | src/main/java/apoc/cypher/Cypher.java:121-123 | no piece contains a delimiter |
| CypherStatements.JoinPieces | src/main/java/apoc/cypher/Cypher.java:121-123 | without carriage returns, joining the pieces with `;\n` gives the text back |
| CypherStatements.PiecesOfJoin | src/main/java/apoc/cypher/Cypher.java:121-123 | texts without delimiters joined by `;\n` are cut back into the same pieces |
| CypherStatements.CrLfSeparates | src/main/java/apoc/cypher/Cypher.java:121 | `;\r\n` separates statements as `;\n` does |
| CypherStatements.StatementsOfJoin | src/main/java/apoc/cypher/Cypher.java:121-123 | non-empty statements joined by `;\n` are read back as exactly those statements, in order |
| CypherStatements.TrailingDelimiter | src/main/java/apoc/cypher/Cypher.java:121-123 | a final `;\n` adds no statement |
| CypherRunner.Project | src/main/java/apoc/cypher/Cypher.java:195-204 | the row numbers and maps of the queued objects, one per object |
| CypherRunner.ProjectConcat | src/main/java/apoc/cypher/Cypher.java:195-204 | projection distributes over concatenation |
| CypherRunner.RowQueue.Put | src/main/java/apoc/cypher/Cypher.java:161 | `put` appends the row at the tail of the queue |
| CypherRunner.RowQueue.Offer | src/main/java/apoc/cypher/Cypher.java:164 | an accepted offer appends the row, and a refused one changes nothing |
| CypherRunner.RowQueue.Poll | src/main/java/apoc/cypher/Cypher.java:402-408 | an interrupted poll or an empty queue gives `null`; otherwise the head is removed and returned |
| CypherRunner.UpTo | src/main/java/apoc/cypher/Cypher.java:398-400 | the longest prefix without the tombstone, which is followed by the tombstone when it is not the whole queue |
| CypherRunner.After | src/main/java/apoc/cypher/Cypher.java:398-400 | what lies beyond the first tombstone |
| CypherRunner.QueueSpliterator.constructor | src/main/java/apoc/cypher/Cypher.java:383-387 | the spliterator polls its first entry |
| CypherRunner.QueueSpliterator.TryAdvance | src/main/java/apoc/cypher/Cypher.java:390-396 | once ended, it returns false and changes nothing. Otherwise the action gets the entry, the next entry is polled, and it reports whether the stream goes on; what remains shrinks by exactly the delivered entry |
| CypherRunner.QueueSpliterator.TrySplit | src/main/java/apoc/cypher/Cypher.java:410 | `trySplit` is always `null` |
| CypherRunner.QueueSpliterator.AdvanceAll | src/main/java/apoc/cypher/Cypher.java:390-400 | advancing until the end consumes exactly what remained of the stream, and leaves what follows the tombstone untouched |
| CypherRunner.QueueSpliterator.Drain | src/main/java/apoc/cypher/Cypher.java:390-400 | consuming the stream delivers every entry before the tombstone, in FIFO order, and nothing else; it ends at the tombstone, which leaves what follows it queued, or at an empty queue |
| CypherRunner.StatsMap | src/main/java/apoc/cypher/Cypher.java:177-193 | the statistics map's "rows" is the row count |
| CypherRunner.NumberedRows | src/main/java/apoc/cypher/Cypher.java:158-161 | one numbered row per engine row |
| CypherRunner.NumberedRowsAt | src/main/java/apoc/cypher/Cypher.java:158-161 | row i is numbered i and holds the engine's row i |
| CypherRunner.StatementRows | src/main/java/apoc/cypher/Cypher.java:155-168 | a statement queues its engine rows and at most one more row, exactly its rows when statistics are off |
| CypherRunner.StatementRowsLayout | src/main/java/apoc/cypher/Cypher.java:155-168 | rows 0..n-1 in result order, then, when the offer succeeds, one row numbered -1 whose "rows" is n |
| CypherRunner.PutRows | src/main/java/apoc/cypher/Cypher.java:158-161 | the queue grows by the numbered rows, and none of them is the tombstone |
| CypherRunner.ExecuteStatement | src/main/java/apoc/cypher/Cypher.java:155-168 | returns the row count; the queue grows by the statement's rows and possibly its statistics row |
| CypherRunner.FirstMismatch | src/main/java/apoc/cypher/Cypher.java:122-139 | the first statement of the wrong kind for the mode; all before it are of the right kind |
| CypherRunner.RunStatements | src/main/java/apoc/cypher/Cypher.java:119-146 | for an engine that does not fail: the loop throws exactly when some statement has the wrong kind; only the statements before it ran, in order |
| CypherRunner.RunManyStatements | src/main/java/apoc/cypher/Cypher.java:106-117 | for an engine that does not fail: a mixed run throws the source's `RuntimeException`; otherwise the stream delivers every statement's rows, in statement order |
| CypherRunner.ReadStream | src/main/java/apoc/cypher/Cypher.java:113-116 | after the tombstone is queued, the stream over the queue delivers exactly the queued rows, in order |

## Left out

- Threads, futures and pools are not modelled. This covers the `Util.inThread` that runs periodic statements and puts the tombstone, `POOL.submit` and `Future.get` in `parallel2`, the parallel stream of `parallel`, and the scheduler of `runTimeboxed`. Batches and statements run one after the other, in order.
- The queue is unbounded, because blocking is not modelled. The source's 100-entry capacity, the blocking `put`, the 10-second poll timeout and `terminationGuard` are left out. A poll that gives `null` (timeout or interrupt) is the `interrupted` parameter.
- The statistics row's 100 ms `offer` may be dropped. Whether it succeeds is the `statsAccepted` parameter of the environment.
- The query engine is a function parameter. This covers `db.execute` and `api.execute`, `QueryStatistics` and transactions (`beginTx`, `Util.inTx`). The clock reading `System.currentTimeMillis` is the `elapsed` parameter.
- The engine never fails. Its result is always rows and statistics, so no query throws. This leaves out three things:
  - the `EXPLAIN` run of `parallel2` (Cypher.java:320), which the model drops. It only validates, and a statement it rejects throws before any batch runs;
  - the `RuntimeException` "Error executing in parallel" that `parallel2` throws when a batch's future fails (Cypher.java:343-348);
  - an exception from `api.execute` (Cypher.java:156) or from `Util.inTx` (Cypher.java:128) while the runner executes a statement.
- CypherBatches.Parallel2Spec: its "throws exactly when the parameters lack the key or its value is not a list" holds only for an engine that does not fail, as the line above says. The EXPLAIN rejection and the failed-future exception are not among its outcomes.
- CypherBatches.Parallel2: it delivers every batch's rows only for an engine that does not fail. The EXPLAIN rejection (Cypher.java:320) and "Error executing in parallel" (Cypher.java:346-347) are not modelled.
- CypherRunner.RunStatements: "throws exactly when some statement has the wrong kind" holds only for an engine that does not fail. An exception from `api.execute` or `Util.inTx` (Cypher.java:128, 141, 156), which would end the loop early, is not modelled.
- CypherRunner.RunManyStatements: "every statement's rows" holds only for an engine that does not fail, for the same reason as `CypherRunner.RunStatements`.
- CypherQueries.ParallelParams: the source copies the parameters into a `HashMap` (Cypher.java:305), whose iteration order is unspecified. The model uses an insertion-ordered map, so the key order its contract states is the model's, not Java's.
- Regular expressions are not modelled. `isSchemaOperation` is an uninterpreted predicate and `isPeriodicOperation` is left out. `String.replaceAll` and `String.split` are parameters. `regexGroups`, `slug`, `camelCase`, `upperCamelCase`, `snakeCase` and `toUpperCase` are left out.
- `clean`, `compareCleaned`, `urlencode`, `urldecode`, `base64Encode`, `base64Decode`, `format`, `capitalize*`, `decapitalize*` and `swapCase` wrap JDK or library code and are not modelled.
- `sorensenDiceSimilarity` is floating point and `random` is random; neither is modelled.
- Graph objects are not modelled: the `Node` and `Relationship` branches of `toCypher`, `fromNodes`, and `getKey` on a `PropertyContainer`.
- `Util.quote`, `Util.param`, `Util.withMapping` and `Util.COMPILED` are not part of this model. They are parameters, and nothing is assumed about their output.
- `run`, `runFile`, `runFiles`, `runSchemaFile`, `runSchemaFiles`, `doIt`, `parallel`, `mapParallel`, `mapParallel2` and `runTimeboxed` are not modelled, apart from the shared helpers they call. Readers and files are left out, and the runner takes the text itself.
- The `InterruptedException` that the schema runner wraps in a `RuntimeException` is not modelled, since nothing blocks.
- `estimateSize` and `characteristics` of the spliterator are constants with no behaviour to state.
- A `null` map or list argument is not modelled where the source would throw `NullPointerException`; the argument types exclude `null` there. This covers `lpad`, `rpad`, `removeKey`, `clean`, `groupBy`, `mergeList`, `updateTree`, `flatten`, `sortedProperties` and the `keys` or `values` of `clean`. It also covers these cases:
  - `groupByMulti` with a `null` list of values (`values.size()`, Maps.java:32);
  - `values` with a `null` map: a non-empty key list throws at `map.containsKey` or `map.get` (Maps.java:89), while a `null` or empty key list still gives the empty list;
  - `removeKeys` with a `null` key list (`removeAll(null)`, Maps.java:158);
  - `apoc.when` with a `null` chosen query (`targetQuery.isEmpty()`, Cypher.java:437);
  - `apoc.case` with a `null` conditional list (`conditionals.size()`, Cypher.java:455) or a `null` else query reached after no true condition (`elseQuery.isEmpty()`, Cypher.java:470).
- A `null` query that `apoc.case` picks is modelled: the engine receives `null`, or a statement ending in the text "null" (`CypherQueries.NullQuery`). What the engine then does with `null` (`CypherQueries.Outcome.ExecuteNull`) is not modelled, since the engine is a parameter.
- Map equality is the equality of entry sequences, so two maps with the same entries in a different order differ here, while Java's `Map.equals` ignores order. This matters where the source compares maps: the `valueSet` of `clean` (Maps.java:170), the skip values and keep values of `toCypher` (Strings.java:431-432), and map-valued ids in the index of `updateTree` (Maps.java:183). For example, `clean({x:{a:1,b:2}}, [], [{b:2,a:1}])` removes `x` in Java and keeps it here.
- Values are null, integers, booleans, strings, lists and maps. Floating-point numbers, arrays and other Java objects are not modelled.
- Values.Fold: folds only ASCII letters. `String.CASE_INSENSITIVE_ORDER` folds every character through `Character.toUpperCase` and `toLowerCase`, which needs Unicode tables.
- TextToCypher.SameClass: treats the Java classes of the values as the constructors of `Value`. `Long`, `Integer` and `Double` are one class here.
- TextToCypher.ToCypher: the source's `retainAll` and `removeAll` on the map's key set change the caller's map. The model renders a filtered copy and does not model that mutation.
- Maps.VisitEntries: its contract states the error kind and the keys, not the visited values, because every fact on these mutually recursive functions is paid for at each call. `Maps.VisitEntriesEach` and `Maps.VisitEntriesFails` state the values entry by entry.
- Maps.VisitItems: its contract states the error kind and the length only, for the same reason. `Maps.VisitItemsEach` and `Maps.VisitItemsFails` state the elements one by one.
- Maps.VisitValue: its contract states the error kind and the constructor only. `Maps.VisitValueCases` ties a map value to `Maps.Visit` and a list value to `Maps.VisitItems`.
- Maps.Visit: its contract states the error kind and the merged keys only. `Maps.VisitLevel` states the values of one level, and `Maps.VisitAt` and `Maps.UpdateAtDepth` state what a match carries at any depth.
- Maps.Visit: recursion is bounded by a fuel parameter. Running out of fuel stands for the `StackOverflowError` of a data map that matches its own subtree again and again. `Maps.VisitUnmatched` says how much fuel suffices when nothing matches.
- Maps.Visit / Maps.Merge: `putAll` on the `LinkedHashMap` copy is modelled; the source's `setValue` on the copy's entries is the rebuilt entry sequence.
- Maps.Flatten: the result is an unordered map, as a `HashMap` is; its iteration order is not modelled.
- CypherRunner.StatsMap: its contract states only the "rows" entry. The body builds all thirteen keys of `toMap` in their order.
- CypherRunner.ExecuteStatement: the `int` row counter is unbounded, so its wrap-around beyond 2^31 - 1 rows is not modelled.
- CypherRunner.RunManyStatements: the rows are returned as the list the stream delivers. The laziness of the stream is not modelled. With an unbounded queue, the case where more than 100 rows are queued before the consumer starts is not represented; the source's `put` would block in that case.
- CypherRunner.RunManyStatements: periodic statements run in the same sequence as the others. The source hands them to `Util.inThread`, which is not part of this model; the order of their rows relative to later statements' rows is therefore not modelled.

## Behaviour worth noting

- `apoc.case` (Cypher.java:465-467) runs the query of the first true condition without testing it for emptiness, and tests only the else query (Cypher.java:470). An empty if-query whose condition is true is therefore executed, where `apoc.when` (Cypher.java:437-438) would return the single empty row. `CypherQueries.CaseOfOnePair` states this difference.
- `QueueBasedSpliterator.tryAdvance` (Cypher.java:390-396) ends the stream when `poll` returns `null`. A poll that times out therefore ends the stream; it does not wait for more rows.
- The statement text is cut by `java.util.Scanner` with the delimiter `;\r?\n` (Cypher.java:120-123). `Scanner` skips one delimiter at the very start. The text after the last delimiter is a statement only when it is non-empty, and two delimiters in a row give an empty statement.
- `runManyStatements` (Cypher.java:106-117) creates an `ArrayBlockingQueue` of capacity 100 (Cypher.java:107) and fills it with the blocking `put` of `executeStatement` (Cypher.java:161). The stream that drains the queue is only created afterwards (Cypher.java:116). The schema runner calls `executeStatement` directly (Cypher.java:141), so a schema script whose statements queue more than 100 rows blocks in `put` for good. The data runner does the same unless `Util.inTx`, which is not part of this model, returns before its statement finishes. The model's queue is unbounded, so this behaviour is not represented; see `CypherRunner.RunManyStatements` under "## Left out".
