# gql list queries and schema builder, modelled in Dafny

This project models the core of the Go package `gql`, which builds GraphQL
schemas from Go struct types and resolves list queries against the data
those structs hold. It covers five parts:

- **Field naming and extraction** (`Utils`): the external name of a struct
  field comes from its `json` tag or its Go name. `ExtractField` looks a field
  up by that name, first among the direct fields and then in the root-level
  embedded structs. `deepExtractFieldWithError` follows a path whose segments
  are joined by `_`.
- **Comparators** (`Comparator`): the constructors behind the filter
  operations `==`, `!=`, `IN`, `NOT IN`, `>`, `>=`, `<`, `<=` and `LIMIT`, and
  every `Match`. The LIMIT counter is the only comparator with state. `Match`
  returns the verdict together with the comparator to use for the next item.
- **Filters** (`Filter`, with `Ast` and `Numbers`): the `filter` argument
  arrives as a GraphQL literal. It is decoded into a field path, an operation
  and an argument map. The operation is looked up in the `ListOperations`
  registry, and each list item is matched against the comparator it builds.
- **Sorting** (`Sort`): the `sort` argument is decoded, and a list is
  sorted stably on the value at the field path. The key kind is read from
  the first item. DESC negates the less function. A bad key fails the sort
  with a "failed to sort" message instead of a crash.
- **Schema builder and resolvers** (`Schema`, `Builder`, `Resolve`): GraphQL
  objects, interfaces and fields are plain type descriptors built from Go
  type descriptors. The model covers the prefix check, the mapping from Go
  kinds to schema types, nullability, and the precedence of field merges. It
  also covers the `total<Name>` sibling of a list field, the routing of
  deprecation notes, custom field additions, the path lookup through nested
  objects, and the resolvers that the generated fields use.

Go's reflection is replaced by two datatypes:

- `Values.Value` is a runtime value: a struct is a sequence of fields, each
  with a name, a tag, an embedded flag and a value.
- `Values.GoType` is a static type.

A panic that the source recovers from, or that a caller can see, is an
`Err` of `Results.Result`. The builder's state is a value, and every
operation that changes it returns the new state.

The model follows the code wherever the code and its documentation
disagree. Two differences from the code are deliberate:

- `gql/sort.go:97` asks `DeepExtractField` for two results, but that function
  returns one. The sort key is modelled as the lookup the code evidently
  means, `deepExtractFieldWithError`, so a failed lookup fails the sort with
  "failed to sort: " and the lookup's error, as `gql/sort_test.go:243-250`
  expects.
- `ExtractField` is modelled in its corrected form (see "## Findings").
  It gives nil for a nil input. It never reads an unexported field: an
  unexported field with the key as its name is passed over, and an
  unexported embedded struct is not searched. The lookup as written, which
  panics in all three cases, is modelled beside it.

## Model

| member | source | states |
|---|---|---|
| Utils.NameIsValidGraphQL | gql/utils.go:130-133 | A valid name is non-empty, does not start with a digit, and holds only letters, digits and `_` |
| Utils.NameGrammar | gql/utils.go:130-133 | The Names pattern `[_A-Za-z][_0-9A-Za-z]*` read left to right: one character is valid exactly when it is `_` or a letter, and a valid name extended by one character stays valid exactly when that character is a letter, digit or `_` |
| Utils.FieldName | gql/utils.go:111-127 | The external name of a struct field never contains the separator `_` |
| Utils.FieldNameShape | gql/utils.go:111-127 | The external name never contains the separator `_`. It is "", a valid GraphQL name, or the Go name lower-cased with `_` removed |
| Utils.FieldNameSkipped | gql/utils.go:116-119 | For a Go name that is not all `_`, the name is "" exactly when the whole tag is "-"; a tag such as "-," falls back to the Go name |
| Utils.FieldNameFromTag | gql/utils.go:120-126 | A tag name that is non-empty and valid once `_` is removed is used with its letter case kept; otherwise the Go name is lower-cased with `_` removed |
| Utils.FullFieldName | gql/utils.go:136-138 | The qualified name is the parent, then `_`, then the name |
| Utils.FullFieldNameSplits | gql/utils.go:136-138 | A qualified name splits on `_` into its parent's segments followed by the name, so the path segments can be recovered |
| Utils.ExtractField | gql/utils.go:40-73 | A non-struct gives nil. In a struct, the first exported field with the key as external name gives its value, ahead of any embedded struct |
| Utils.ExtractFieldSearchesEmbeds | gql/utils.go:61-72 | Without a direct match, the result is nil exactly when every embedded struct yields nil; otherwise it is the first non-nil result in declaration order |
| Utils.ExtractFieldAsWritten | gql/utils.go:40-73 | The lookup as written: a nil input panics, and a non-struct gives nil |
| Utils.AsWrittenAgrees | gql/utils.go:40-73 | On every input where the lookup as written does not panic, it returns the same value as the corrected lookup |
| Utils.UnexportedEmbedPanics | gql/utils.go:62-67 | The lookup as written panics on a missing key when the struct embeds an unexported struct |
| Utils.UnexportedEmbedSkipped | gql/utils.go:62-70 | The corrected lookup reports "not found" for that same input |
| Utils.NilInputPanics | gql/utils.go:41-42 | The lookup as written panics on a nil input, while the corrected lookup reports "not found" |
| Utils.UnexportedFieldPanics | gql/utils.go:48-57 | When the first field whose external name is the key is unexported, the lookup as written panics |
| Utils.UnexportedFieldSkipped | gql/utils.go:48-70 | The corrected lookup passes over such a field: the first exported field with that name after it gives the value, and without one the embedded structs are searched |
| Utils.SecretFieldLookup | gql/utils.go:54-57 | For a struct whose only field `secret` is unexported, looking up `secret` panics as written and gives nil when corrected |
| Utils.DeepExtractFieldWithError | gql/utils.go:20-35 | The deep lookup fails exactly when the first segment is not found; otherwise it walks the remaining segments |
| Utils.DeepExtractMissingLater | gql/utils.go:24-31 | When a later segment is missing, the result is nil with no error |
| Utils.DeepExtractField | gql/utils.go:12-15 | The deep lookup with its error dropped gives the value, or nil on error |
| Utils.FollowPathIsChain | gql/utils.go:24-32 | Stopping the walk at the first nil gives the same result as applying ExtractField to every segment |
| Utils.DeepExtractSingleSegment | gql/utils.go:21-34 | For a key without `_`, the deep lookup is ExtractField, and it fails exactly when that gives nil |
| Utils.DeepExtractPath | gql/utils.go:20-35 | A path "a_b_c" is the nested lookup of a, then b, then c, whenever a is found |
| Utils.ExtractEmbeds | gql/utils.go:77-104 | Gives none for a non-struct, and none when the struct has no exported embedded field. Otherwise it gives exactly the names of the exported embedded fields, and each name maps to the type of the last exported embedded field with that name |
| Utils.EmbedMapLastWins | gql/utils.go:84-95 | In the embed map, a name holds the type of the last embedded field of that name, since later writes replace earlier ones |
| Comparator.Match | gql/comparator.go:129-211 | String equality, int equality and IN match only operands of their own type. Integer comparisons take ints directly and truncate floats. The LIMIT counter advances by one per call; only it changes state |
| Comparator.TruncToInt | gql/comparator.go:167 | Converting a float to int truncates toward zero |
| Comparator.Contains | gql/comparator.go:134-139 | The IN loop finds a string exactly when it is among the values |
| Comparator.NotNegates | gql/comparator.go:21-23 | The NOT comparator's verdict is the negation of its child's verdict, and the child's state advances as it would on its own |
| Comparator.LimitRun | gql/comparator.go:191-199 | Over successive calls, the call numbered count+i+1 matches exactly when that number is at most the limit, so a fresh counter with limit 0 or less never matches |
| Comparator.NewEqual | gql/comparator.go:27-40 | Succeeds exactly when "Value" is an int or a string, with the missing and unsupported errors otherwise. The comparator matches exactly the operands equal to "Value" |
| Comparator.NewNotEqual | gql/comparator.go:44-50 | Fails exactly when equality fails, with the same error. It matches exactly the operands that are not equal to "Value" |
| Comparator.NewIn | gql/comparator.go:54-75 | Succeeds exactly when "Values" is a list of strings, with the missing and not-strings errors otherwise. It matches exactly the strings in that list |
| Comparator.NewNotIn | gql/comparator.go:102-108 | Fails exactly when IN fails, with the same error. It matches exactly the operands that IN rejects |
| Comparator.IntegerOp | gql/comparator.go:80-86 | Only ">", ">=", "<" and "<=" are accepted; any other operator is the panic naming it |
| Comparator.IntegerOpSymbol | gql/comparator.go:81-83 | Every ordering is recovered from its own symbol |
| Comparator.NewIntegerComparison | gql/comparator.go:87-98 | Succeeds exactly when "Value" is an int, with the missing and not-an-integer errors otherwise. The comparator holds for an int operand exactly when the ordering does |
| Comparator.NewLimitLength | gql/comparator.go:112-123 | Succeeds exactly when "Value" is an int, with the missing and not-an-integer errors otherwise. The counter starts at zero |
| Numbers.Atoi | gql/filter.go:116-119 | A parsed integer always fits in 64 bits and comes from non-empty text |
| Numbers.AtoiIntToString | gql/filter.go:116-120 | Formatting a 64-bit integer and parsing the text gives the integer back |
| Numbers.AtoiRejectsNonDigit | gql/filter.go:116-118 | Text with a character that is neither a digit nor a leading sign is rejected |
| Filter.ParseAstValue | gql/filter.go:98-138 | Strings decode as themselves. Integer text decodes exactly when Atoi accepts it. A list decodes exactly when every item does, and keeps its length. Every other kind is an error naming the kind |
| Filter.ParseToAst | gql/filter.go:103-134 | Decoding the literal of any decodable value gives that value back |
| Filter.ParseArgument | gql/filter.go:74-82 | The Argument object decodes exactly when every entry's value decodes |
| Filter.ParseArgumentKeys | gql/filter.go:75-81 | The decoded Argument map has exactly one key per entry name |
| Filter.ParseArgumentLastWins | gql/filter.go:75-81 | Each key holds the decoded value of the last entry with that name |
| Filter.NewListFilterJson | gql/filter.go:53-87 | The literal decodes exactly when Field and Operation are string literals and Argument is an object literal whose entries decode |
| Filter.NewListFilterJsonLastWins | gql/filter.go:55-84 | For Field, Operation and Argument, the last entry with that name wins |
| Filter.NewListFilterJsonAbsent | gql/filter.go:53-86 | A part with no entry keeps its zero value: "" or the empty map |
| Filter.OtherEntriesIgnored | gql/filter.go:56-83 | An entry with any other name changes nothing |
| Filter.RegistryIntegerOps | gql/filter.go:19-29 | The registry's integer operations are exactly the four orderings, each under its own symbol |
| Filter.NewListFilter | gql/filter.go:148-176 | No argument gives no filter and no error. A non-object literal, a decoding error, an empty Operation, an unknown Operation and a constructor error are each returned unchanged. Otherwise the result is the filter with the literal's field path |
| Filter.EqualFilterMatches | gql/filter.go:148-176 | An `==` filter on a field path matches exactly the items whose value at that path equals the decoded argument |
| Filter.MatchOperand | gql/filter.go:182-188 | Without a field path, the operand is nil and nothing is extracted. With one, a missing first segment is an error; otherwise the operand is the deep lookup |
| Filter.ListFilterMatch | gql/filter.go:178-190 | The verdict is the comparator's verdict on that operand, and an extraction error is an error, not a non-match. The next filter differs only in its comparator's state |
| Filter.FilterItemsSelects | gql/builder.go:437-446 | The filter loop keeps exactly the items whose successive verdicts are true, in order. It fails exactly when some item's operand cannot be extracted, with that item's error |
| Filter.FilterItems | gql/builder.go:437-446 | A successful filter keeps no more items than the list has, and only items of the list |
| Filter.LimitFilterKeepsPrefix | gql/builder.go:437-446 | A LIMIT filter without a field path keeps exactly the first `limit - count` items |
| Sort.DecodeSortFields | gql/sort.go:43-66 | The literal decodes exactly when Field is a string literal and Order is a string literal equal to "ASC", "DESC" or "" |
| Sort.ParseSortParameters | gql/sort.go:34-67 | No argument gives no parameters and no error; a non-object literal is an error; otherwise the entries must decode |
| Sort.SortFieldsLastWins | gql/sort.go:44-64 | For Field and Order, the last entry with that name wins |
| Sort.SortFieldsAbsent | gql/sort.go:43-66 | A missing Field or Order leaves it "" |
| Sort.KeyLessTotalOrder | gql/sort.go:111-138 | On keys of one kind, `<` is irreflexive, transitive, total and asymmetric |
| Sort.Keys | gql/sort.go:112-137 | The key check passes exactly when every item's key is found and has the first item's kind |
| Sort.KeysFirstBad | gql/sort.go:112-137 | A failed index-order key check reports the bad item with the lowest index, after only good items |
| Sort.Slot | gql/sort.go:111-151 | The k-th key check of the stable sort reaches an item of the list; within the first block of 20 it stays in that block. Each block of at least two items is entered through `less(a+1, a)`, which extracts item a+1 before item a |
| Sort.SlotInvolution | gql/sort.go:111-151 | Applying the check order twice gives the position back, so every item is reached exactly once |
| Sort.CheckOrder | gql/sort.go:111-151 | The check order lists every position of the list exactly once |
| Sort.FirstBadMessage | gql/sort.go:88-151 | Following the check order, no message is reported exactly when every item it reaches has a good key |
| Sort.FirstBadInOrder | gql/sort.go:88-151 | A reported message is the panic of an item with a bad key that comes after only good items in the check order |
| Sort.FirstBadAt | gql/sort.go:88-151 | The first bad item in the check order is the one whose panic is reported |
| Sort.CheckOrderCoversAll | gql/sort.go:109-151 | The sort panics exactly when some item's key is bad, which is exactly when the index-order key check fails |
| Sort.FirstBadConcat | gql/sort.go:111-151 | In two consecutive runs of checks, the first bad item is the first run's if it has one, and otherwise the second run's |
| Sort.RangeIsKeys | gql/sort.go:112-137 | Checking positions in index order reports what the index-order key check reports |
| Sort.ShortCheckOrder | gql/sort.go:151 | A list of 2 to 21 items is checked as item 1, item 0, then the rest in index order |
| Sort.ShortListFirstBad | gql/sort.go:109-151 | For 2 to 21 items, with item 0's key setting the kind, the sort reports the bad item with the lowest index |
| Sort.SecondItemSlot | gql/sort.go:151 | A block of at least two items starts with its second item, after every item of the earlier blocks |
| Sort.BlockSecondFirst | gql/sort.go:109-151 | When the items before a block are good and the block's second item is bad, that item is reported even if the block's first item is bad too |
| Sort.SecondBlockReport | gql/sort.go:109-151 | For twenty int keys followed by a string and a nil, the nil item is the one reported |
| Sort.SecondBlockExample | gql/sort.go:73-155 | Sorting that list ascending fails with "interface {} is nil, not int", not with the string's message |
| Sort.BeforeIsOrder | gql/sort.go:147-161 | For an item that comes later in the input, the less function (or its negation for DESC) puts it first exactly when the stable order does |
| Sort.InsertionSortSorted | gql/sort.go:151 | The stable sort yields the stable order and permutes both the entries and the items |
| Sort.ListSort | gql/sort.go:73-155 | A list of fewer than two items is returned unchanged. The first item's key decides the kind: a failed lookup, a nil key and an unsupported kind are each their error. Any other bad key fails with the message of the first bad item in the stable sort's check order. A success is a permutation of the input |
| Sort.ListSortStable | gql/sort.go:147-151 | A successful sort is the stable order of the tagged items: ties keep input order for ASC and are reversed for DESC |
| Sort.ListSortOrdered | gql/sort.go:109-151 | A successful sort puts the keys in order: no later key is less than an earlier one for ASC, and none is greater for DESC |
| Sort.ListSortDescendingDistinct | gql/sort.go:147-149 | With pairwise distinct keys, a DESC sort puts the keys in strictly descending order |
| Sort.SortedUnique | gql/sort.go:151 | Two stable-order arrangements of the same entries are equal, so the sorted result is determined |
| Schema.ApplyFields | gql/builder.go:300-304 | Writing fields by name leaves exactly the old names plus the written names |
| Schema.LastWriteWins | gql/builder.go:300-304 | The last write of a name decides that name's field |
| Schema.UnwrittenKept | gql/builder.go:242-245 | A name that no field writes keeps its field |
| Schema.ResolveGraphQLObject | gql/builder.go:528-539 | Finds an object exactly when the innermost type under the NonNull and List wrappers is an object, and returns that object |
| Schema.FindObjectField | gql/builder.go:506-524 | An empty path, a missing segment or a field that holds no object gives none. Each step looks through the field's wrappers |
| Schema.AddFieldsAt | gql/builder.go:121-125 | Adding fields to a nested object leaves the top-level field names as they were |
| Schema.AddFieldsAtFound | gql/builder.go:121-125 | After adding to the object the path finds, that object's fields are its old fields with the additions written over them |
| Schema.AddFieldsAtOthers | gql/builder.go:121-125 | Fields off the path are left as they were |
| Builder.NewObjectBuilder | gql/builder.go:96-104 | Fails exactly when the prefix contains `_`, with that message. Missing additions become the empty map, and nothing is built yet |
| Builder.GraphQLType | gql/builder.go:339-358 | Through the kind table, bool is Boolean, float32 and float64 are Float, int and int64 are Int, and string is String. The result is never NonNull. It is nil exactly for an unsupported kind that is not a slice or struct. It holds an object exactly when the type under its slices is a struct outside package "time". A struct from package "time" is DateTime; any other struct is an object named by the lower-cased qualified name, with no interfaces |
| Builder.SliceDepth | gql/builder.go:350-352 | A type nested in k slices maps to its element's schema type nested in k lists |
| Builder.FieldGraphQLType | gql/builder.go:312-331 | Nil stays nil; any other type is NonNull exactly when no comma-separated segment of the json tag is "omitempty" |
| Builder.MainField | gql/builder.go:258-287 | A description with the "DEPRECATED:" prefix becomes the deprecation reason and the description is empty; any other description, the empty one included, stays the description and the deprecation reason is empty. Exactly a list-typed field takes the list arguments and the list resolver |
| Builder.FieldWritesShape | gql/builder.go:246-298 | Every generated field is well formed: a list field takes the list arguments and list resolver, and comes right after its `total<Name>` Int count sibling. Deprecation notes are routed, and no name contains `_` |
| Builder.AdditionsWin | gql/builder.go:300-304 | An addition registered for the parent overrides both the interface's fields and the struct's own fields |
| Builder.OwnBeatsBase | gql/builder.go:242-298 | A struct's own field overrides an interface field of the same name unless an addition writes that name |
| Builder.BaseKept | gql/builder.go:242-245 | An interface field survives when neither the struct nor an addition writes its name |
| Builder.MergeKeys | gql/builder.go:242-304 | The merged fields hold exactly the names of the three layers |
| Builder.TotalField | gql/builder.go:288-295 | The count sibling is named `total` plus the title-cased list name, has type Int, carries the fixed description "The total length of the <name> list at this same level in the data, this number is unaffected by filtering.", takes no list arguments, is not deprecated, and resolves by counting that list under the same parent |
| Builder.BuildFields | gql/builder.go:236-307 | Every interface field name survives. Each addition registered for the parent that is the last of its name is the field under that name. Each struct-field write that is the last of its name, and that no addition overwrites, is the field under that name |
| Builder.FieldWritesNames | gql/builder.go:246-298 | A name is written exactly when some struct field that is not anonymous and has a schema type writes it, as its external name or as the `total<Name>` of a list field. Anonymous fields and fields whose kind has no schema type write nothing |
| Builder.FieldWritesLast | gql/builder.go:253-298 | The last struct field to write a name is written as its main field, with its external name, its schema type and its description, and nothing later writes that name |
| Builder.OwnWritesNames | gql/builder.go:249-298 | One struct field writes exactly its external name, plus `total<Name>` when it is list-typed, and nothing at all when it is anonymous or has no schema type |
| Builder.OwnWritesLast | gql/builder.go:258-298 | A struct field that writes anything writes its main field last |
| Builder.EntriesNames | gql/builder.go:288-298 | A field's writes hold its own name and, for a list, the count sibling's name, and end with the main field |
| Builder.BuildFieldsBuiltFrom | gql/builder.go:236-307 | The fields hold exactly the base names, the names the struct's fields write and the additions' names. The last addition of a name wins; otherwise the last struct field of that name gives its main field; otherwise the base field is kept |
| Builder.AllOwnWin | gql/builder.go:242-304 | Every struct-field write that is the last of its name, and that no addition writes, is the merged field under that name |
| Builder.AllAdditionsWin | gql/builder.go:300-304 | Every addition that is the last of its name is the merged field under that name |
| Builder.BuildObject | gql/builder.go:210-222 | The object takes the lower-cased name and the given interfaces. It keeps every base field name, and each addition registered at the lower-cased name that is the last of its name is the object's field under that name |
| Builder.AllEmbedsKeys | gql/builder.go:139-145 | A name gets an interface exactly when some source struct embeds it |
| Builder.AllEmbedsLastWins | gql/builder.go:139-145 | The embed of the last source struct that has one of that name wins |
| Builder.BuildInterfaces | gql/builder.go:135-160 | Fails exactly when an embedded type is not a struct. Otherwise only the interfaces change: one per embedded struct name, named with the prefix. Each interface holds the fields built from its embedded struct, with the additions registered at the prefixed name |
| Builder.Interface | gql/builder.go:147-155 | The interface is named with the prefix, and holds the fields built from the embedded struct with no base fields and the prefixed name as parent |
| Builder.InterfaceMap | gql/builder.go:146-157 | One interface per embedded struct name, each named with the prefix and holding its embedded struct's built fields |
| Builder.Implemented | gql/builder.go:185-189 | No interface is implemented exactly when no embed has a built interface. When all of them have one, the interfaces come in embed order |
| Builder.BaseFields | gql/builder.go:183-193 | The base fields are exactly the fields of the implemented interfaces, and each base field is the field of that name in one of them |
| Builder.BuildType | gql/builder.go:179-202 | Fails exactly for a non-struct. The object is named by the lower-cased prefixed name and implements the built interfaces of its embeds. Only an object that implements an interface is recorded. The object keeps every field name of its embeds' interfaces |
| Builder.BuildTypeBuiltFrom | gql/builder.go:177-213 | The object's fields are built from the struct on top of the fields of its embeds' interfaces, with the additions registered at its lower-cased name |
| Builder.BuildEach | gql/builder.go:168-172 | Builds one object per source struct, in order, and changes nothing but the recorded objects |
| Builder.BuildTypes | gql/builder.go:164-175 | After a success the interfaces exist. Each source struct gives an object named after it, with the prefix and in lower case |
| Builder.FreshTypesImplementEmbeds | gql/builder.go:164-193 | On a fresh builder, each object implements one interface per embedded struct, named with the prefix, in declaration order |
| Builder.InterfaceForEmbed | gql/builder.go:139-148 | Every embedded struct of a source struct has a built interface named with the prefix |
| Builder.AddCustomField | gql/builder.go:110-126 | The additions are recorded for the key. Only the interface named by the key's first segment can change, and every interface keeps its name. Nothing else changes |
| Builder.AddCustomFieldAtRoot | gql/builder.go:116-120 | When the rest of the path finds no object in the interface, the fields are written into the interface itself |
| Builder.AddCustomFieldNested | gql/builder.go:121-125 | When the path finds an object, the fields are written into that nested object, and the interface keeps its own field names |
| Builder.AddCustomFields | gql/builder.go:110-128 | Records a key exactly when it was present before or is added now; objects, prefix and structs are unchanged |
| Builder.AddCustomFieldsLastWins | gql/builder.go:110-111 | The last entry for a key decides its recorded additions |
| Resolve.ResolveByField | gql/builder.go:456-473 | Fails exactly when the field is missing or nil, with an error naming the field; otherwise gives its non-nil value |
| Resolve.ResolveByFieldDirect | gql/builder.go:464-471 | A record whose first field with that name holds a value resolves to that value |
| Resolve.ResolveTotalCount | gql/builder.go:478-501 | An absent field counts 0 and a list counts its length. Any other value is the "not a valid list" error |
| Resolve.ResolveListField | gql/builder.go:393-450 | Filter errors come first, then sort errors. With neither argument, the field is resolved as it is. Otherwise the result is a list, and a non-list value is an error naming the qualified field |
| Resolve.ApplyListArgs | gql/builder.go:411-449 | Without a filter or sort argument the resolved value comes back unchanged. Otherwise a value that is not a list is an error naming the qualified field, and a list result holds no more items than the field's list and only items taken from it |
| Resolve.SortThenFilter | gql/builder.go:426-448 | With a filter, the list is sorted first, then the items whose successive verdicts are true are kept. A sort error is returned as it is, and a filter error carries the hydration note |
| Resolve.SortOnly | gql/builder.go:427-435 | With a sort and no filter, the result is the sorted list |
| Resolve.LimitAfterSort | gql/builder.go:426-448 | A LIMIT filter applied after the sort keeps the first `limit` items of the sorted list |
| Resolve.ListFieldWithinTotal | gql/builder.go:289-295 | A list field never resolves to more items than its count sibling reports, and only to items of the field's list |

## Left out

- Go reflection and graphql-go objects are replaced by the `Values` and `Schema` datatypes. graphql-go's schema validation, execution, interface type resolution (`resolveObjectByName`) and field argument descriptors are foreign code. A list field's arguments are a `listArgs` flag.
- A generated resolver is named by its kind, field and parent (`Schema.Resolver`) instead of being a closure. The closures are modelled as the `Resolve` functions.
- Go map iteration order is not modelled. Three loops use declaration or parameter order instead: the additions in `AddCustomFields`, the embeds in `BuildInterfaces`, and the embeds in `buildType`. Where two entries write the same name, a different order can give a different winner.
- Aliasing is not modelled. After `BuildTypes`, graphql-go's shared field maps would let a later `AddCustomFields` reach already built objects; the model applies additions only to what is built afterwards.
- graphql-go's `AddFieldConfig` ignores an empty name; the model writes every field.
- `QueryReporter` calls and context lookups are observation side channels. Located errors keep only their message.
- The goroutine and channel of `listSort`, and the mutex of the LIMIT counter, are concurrency plumbing. The sort is one sequential function, and the counter is a value.
- Pointer embeds and arrays are left out. Only non-pointer embedded structs and slices are modelled.
- Utils.ExtractEmbeds: `extractEmbeds` maps a name to the embedded value, and `BuildInterfaces` builds from that value's dynamic type (gql/builder.go:147-149). The model keeps the field's static type. The two agree for an embedded struct. They differ for an exported embedded interface-typed field: holding a struct, Go builds the interface from the struct the field holds, while the model reports the non-struct panic; holding nil, Go panics on the nil type.
- Values.Exported: a field is exported when its name starts with an ASCII upper-case letter. Go's `unicode.IsUpper` also accepts non-ASCII upper-case letters, so a field such as `Äpfel` is exported in Go but not in the model.
- Recursive struct types are left out: `Values.GoType` is a finite datatype, so a type such as `type Node struct { Children []Node }` cannot be written. In Go, `graphQLType`, `buildObject` and `buildFields` (gql/builder.go:213, 253, 350-352) call each other on such a type without end until the stack overflows.
- Floats are finite reals. NaN, infinities and the result of `int(f)` outside the 64-bit range are left out.
- Comparator.Match: integer bounds and operands are unbounded integers. Go's 64-bit `int` and the LIMIT counter's wrap-around are not modelled; the argument decoder only produces 64-bit values.
- `%q` formatting is modelled as plain double quotes with no escaping. `strings.ToLower` and `strings.Title` are modelled for ASCII only.
- Sort.GoTypeName: in a panic message, a struct value is named "struct" and a slice value "[]interface {}". Go would print the full type.
- Sort.ListSortStable: for DESC, ties are reversed. That is what Go's insertion sort does for up to 20 items; for longer lists Go merges blocks, and ties may come out in another order.
- Two parts of `parseASTValue` are left out: its branch for an integer literal already holding a Go `int`, and its errors for input that is not an AST value. The literal datatype cannot express either.
- An empty filter result is Go's nil slice; the model gives the empty list.
- `ListOperations` is a fixed registry. Callers of the Go package could add operations to the exported map.
- `listFilterJSON.String()` is left out: its output depends on map iteration order.
- Builder.BuildTypes: for a builder whose interfaces are not built yet, the contract does not say exactly when the build fails. That would be a non-struct embed or a non-struct source struct. `Builder.BuildInterfaces` and `Builder.BuildEach` state each half.
- Utils.ExtractFieldAsWritten: the contract states only the nil and non-struct cases. `Utils.AsWrittenAgrees` and the counterexample lemmas relate it to the corrected lookup.

## Findings

| source | as written | input that shows it | evidently intended | confidence | as-written member | corrected member |
|---|---|---|---|---|---|---|
| gql/utils.go:62-67 | The embedded-struct search calls `Interface()` on every embedded field, including unexported ones, and this panics | A struct with an exported field `Extra` and an unexported embedded struct, looked up with a key no field has, as `testDoubleEmbed` in the package's tests is built | Unexported embedded structs are skipped (as `extractEmbeds` skips them), and the lookup reports "not found" | not executed | Utils.UnexportedEmbedPanics | Utils.UnexportedEmbedSkipped |
| gql/utils.go:41-42 | `reflect.TypeOf(nil).Kind()` dereferences a nil type and panics | A nil item in a list filtered on a field path, or a nil source | A nil input is "not a struct" and gives nil, so the filter reports the missing field | not executed | Utils.NilInputPanics | Utils.ExtractField |
| gql/utils.go:54-57 | A direct match is returned through `Interface()`, which panics when the matching field is unexported. The schema builder makes fields for unexported struct fields too, so resolving such a field panics | A struct with one unexported field `secret`, looked up with the key "secret" | Unexported fields are skipped, as `extractEmbeds` skips unexported embeds, and the lookup goes on to later fields and embedded structs | not executed | Utils.UnexportedFieldPanics | Utils.UnexportedFieldSkipped |
