# DevMate converter and HTTP helpers in Dafny

This project models the logic of two DevMate commands and proves properties about it.

**`convert`** (`DevMate/Commands/ConverterCommand.cs`):

- **XML to JSON** walks the element children of the document root. It takes each child's flattened `InnerText` and classifies it: Int32 first, then double, then boolean, else string. It stores the result under the child's tag name in a dictionary, and the last occurrence of a name wins.
- **JSON to XML** writes a JSON value under a synthetic `root` element:
  - an object property becomes a child named after its key;
  - an array item becomes a child named `item`;
  - a scalar becomes inner text;
  - `null` sets `IsEmpty`.
- **Dispatch** lower-cases and trims the two format arguments. Only `xml`→`json` and `json`→`xml` convert. A blank argument stops the command before the input file is read.

**`http`** (`DevMate/Commands/HttpRequestCommand.cs`):

- **`MapStringToMethod`** maps the nine method names, matched after lower-casing and trimming. Any other name raises an out-of-range error.
- **The header loop** splits each `--header` argument at `:`. It keeps the trimmed first piece as the name and the trimmed second piece as the value, and adds the pair to the request's headers.

## Modules

- `Wrappers` holds `Option` and `Result`.
- `Strings` models these .NET operations:
  - `char.IsWhiteSpace`;
  - `Trim`;
  - ASCII `ToLower`;
  - `IsNullOrWhiteSpace`;
  - `Split(char)`, with `Join` as its inverse.
- `Numbers` models:
  - `int.TryParse` (integer number style, Int32 range);
  - `bool.TryParse`;
  - the `ToString` texts of integers and booleans.
- `Xml` holds the document model the converter touches:
  - an `Element` value with a name, ordered child nodes and the `IsEmpty` flag;
  - `InnerText`;
  - the `XmlElement` class, whose `AppendChild`, `InnerText` setter and `IsEmpty` setter change it in place.
- `Json` holds the parsed JSON value. An object is an ordered sequence of properties. A number keeps its raw text. `Undefined` is a value kind of its own.
- `Converter` holds:
  - both transforms, each as a loop or recursive method over the mutable objects;
  - the functions that specify them: `Collect` for XML to JSON, and `Fill`/`Build` for JSON to XML;
  - the lemmas about those functions;
  - the `Convert` dispatch.
- `HttpRequest` holds:
  - `MapStringToMethod`;
  - header parsing;
  - the `RequestHeaders` class and its header loop.

These parts are parameters of the model rather than computed:

- `isDouble`: `double.TryParse`, which depends on floating point and culture.
- `isName`: `XmlDocument.CreateElement`'s check that a name is a valid XML name. If the check fails, the conversion ends with `InvalidElementName`.
- `isFinite`: whether the double that `double.TryParse` reads from a text is finite. `JsonSerializer.Serialize` throws on NaN and infinities, so a dictionary holding such a double ends the conversion with `SerializationError`.
- `accepts`: `HttpHeaders.Add`'s validation of a header name and value. It also sees the headers already added, so it can refuse, for example, a second `Host`. A rejected header ends the loop with `HeaderRejected`.
- `loadXml`, `parseJson` and `fileContent`: the text parsers and the file the command reads. A parse failure is an error outcome.

`CreateElement` returns an element whose `IsEmpty` is already true. So for a freshly created element, `null`, `Undefined`, an empty object and an empty array all give the same element: no children, short tag (`BuildScalarShape`, `BuildObjectShape`).

## Model

| member | source | states |
|---|---|---|
| Strings.TrimIgnoresPadding | DevMate/Commands/ConverterCommand.cs:38-39 | `Trim` ignores any white space around the text |
| Strings.IsWhiteSpace | DevMate/Commands/ConverterCommand.cs:38-39 | `char.IsWhiteSpace`: the Unicode space separators, line and paragraph separators, and the control characters U+0009 to U+000D, U+0085 |
| Strings.TrimBy | DevMate/Commands/ConverterCommand.cs:38-39 | trimming never lengthens the text, and the result neither starts nor ends with a trimmed character |
| Strings.Trim | DevMate/Commands/ConverterCommand.cs:38-39 | `String.Trim()`: `TrimBy` with `char.IsWhiteSpace`; its properties are stated by the trimming lemmas in this table |
| Strings.IsBlank | DevMate/Commands/ConverterCommand.cs:44-45 | `string.IsNullOrWhiteSpace`: every character is white space (see `BlankIffTrimsToEmpty`) |
| Strings.Split | DevMate/Commands/HttpRequestCommand.cs:54 | `String.Split(char)` returns at least one piece |
| Strings.TrimByIdempotent | DevMate/Commands/ConverterCommand.cs:38-39 | trimming twice is the same as trimming once |
| Strings.TrimLowerIgnoresPadding | DevMate/Commands/HttpRequestCommand.cs:79 | `ToLower().Trim()` ignores any white space around the text |
| Strings.LowerIdempotent | DevMate/Commands/HttpRequestCommand.cs:79 | lower-casing twice is the same as lower-casing once |
| Strings.Lower | DevMate/Commands/ConverterCommand.cs:38-39 | `ToLower` keeps the length and maps each character through `LowerChar` (ASCII letters to lower case, all else unchanged) |
| Strings.BlankIffTrimsToEmpty | DevMate/Commands/ConverterCommand.cs:44-45 | `IsNullOrWhiteSpace` holds exactly when the text trims to the empty string |
| Strings.JoinSplit | DevMate/Commands/HttpRequestCommand.cs:54 | joining the pieces of `Split(':')` with `:` gives back the header text |
| Strings.SplitPieces | DevMate/Commands/HttpRequestCommand.cs:54 | `Split` gives one more piece than there are separators, and no piece contains the separator |
| Strings.SplitJoin | DevMate/Commands/HttpRequestCommand.cs:54 | splitting the joined pieces gives back the pieces, when none contains the separator |
| Strings.SplitCount | DevMate/Commands/HttpRequestCommand.cs:54-55 | a text contains the separator exactly when it has a separator count above zero, so `values[1]` exists exactly then |
| Strings.SplitNoSeparator | DevMate/Commands/HttpRequestCommand.cs:54 | text without the separator splits into itself alone |
| Strings.SplitPrefix | DevMate/Commands/HttpRequestCommand.cs:54 | `Split` cuts at the first separator: the text before it is the first piece |
| Strings.TrimByStartThenEnd | DevMate/Commands/ConverterCommand.cs:38-39 | `Trim` is `TrimStart` followed by `TrimEnd` |
| Strings.TrimStartBy | DevMate/Commands/ConverterCommand.cs:38-39 | the result is a suffix of the text, everything dropped is white space, and the result does not start with white space |
| Strings.TrimEndBy | DevMate/Commands/ConverterCommand.cs:38-39 | the result is a prefix of the text, everything dropped is white space, and the result does not end with white space |
| Strings.LowerAppend | DevMate/Commands/ConverterCommand.cs:38-39 | lower-casing works character by character, so it distributes over concatenation |
| Strings.LowerKeepsWhiteSpace | DevMate/Commands/ConverterCommand.cs:38-39 | lower-casing leaves white space unchanged, so the trimmed padding survives `ToLower` |
| Numbers.ParseInt32 | DevMate/Commands/ConverterCommand.cs:97 | an `int.TryParse` success lies in the Int32 range, and the text contains a digit |
| Numbers.ParseInt32Text | DevMate/Commands/ConverterCommand.cs:97 | the decimal text of any integer parses back to it when it is in the Int32 range, and fails otherwise |
| Numbers.Int32Text | DevMate/Commands/ConverterCommand.cs:97 | the invariant-culture decimal text of an integer is never empty and starts with `-` exactly for negative numbers |
| Numbers.ParseBool | DevMate/Commands/ConverterCommand.cs:101 | `bool.TryParse`: the text, stripped of white space and NULs and lower-cased, is `true` or `false` (see `ParseBoolIgnoresPaddingAndCase`) |
| Numbers.LowerCharWhiteOrNull | DevMate/Commands/ConverterCommand.cs:101 | lower-casing a character does not change whether `bool.TryParse` strips it |
| Numbers.TrimLowerCommutes | DevMate/Commands/ConverterCommand.cs:101 | stripping white space and NULs and lower-casing can be done in either order |
| Numbers.ParseBoolIgnoresPaddingAndCase | DevMate/Commands/ConverterCommand.cs:101 | white space and NULs around the text, and its ASCII letter case, do not change what `bool.TryParse` reads |
| Numbers.ParseBoolExample | DevMate/Commands/ConverterCommand.cs:101 | `" TRUE "` reads as true |
| Numbers.DecimalDigitsValue | DevMate/Commands/ConverterCommand.cs:97 | the digits written for a natural number have that number as their value |
| Numbers.BoolText | DevMate/Commands/ConverterCommand.cs:156 | `b.ToString().ToLower()` is `"true"` or `"false"` |
| Numbers.ParseBoolRoundTrip | DevMate/Commands/ConverterCommand.cs:101 | `bool.TryParse` reads the lower-case text of a boolean back as that boolean |
| Numbers.IntTextIsNotBool | DevMate/Commands/ConverterCommand.cs:97-102 | text that parses as an Int32 never parses as a boolean, so the int branch and the bool branch never compete |
| Xml.InnerTextOfChildren | DevMate/Commands/ConverterCommand.cs:95 | an element's `InnerText` is the concatenated text of its child nodes, in order |
| Xml.InnerText | DevMate/Commands/ConverterCommand.cs:95 | the `XmlNode.InnerText` getter; its meaning is stated by `InnerTextOfChildren` and `BuildText` |
| Xml.NodesTextAppend | DevMate/Commands/ConverterCommand.cs:95 | the text of a run of siblings is the text of its parts, concatenated in order |
| Xml.NewElement | DevMate/Commands/ConverterCommand.cs:116 | a created element has the given name, no children, the short-tag flag set and empty `InnerText` |
| Xml.WithChild | DevMate/Commands/ConverterCommand.cs:133 | appending a child extends `InnerText` by that child's text, puts the child after the existing ones and clears the short-tag flag |
| Xml.WithChildren | DevMate/Commands/ConverterCommand.cs:129-134 | appending several children extends `InnerText` by their text in order; the flag stays set only when nothing is appended to a flagged element |
| Xml.WithInnerText | DevMate/Commands/ConverterCommand.cs:147 | setting `InnerText` replaces all children by one text node, clears the flag, and reads back as the text |
| Xml.WithIsEmpty | DevMate/Commands/ConverterCommand.cs:160 | setting `IsEmpty` to true removes all children, so `InnerText` becomes empty; setting it to false changes neither |
| Xml.WithChildrenStep | DevMate/Commands/ConverterCommand.cs:129-134 | appending children one at a time is appending them all at once |
| Xml.Valid | DevMate/Commands/ConverterCommand.cs:146-163 | an element marked as a short tag has no children |
| Xml.OperationsKeepValid | DevMate/Commands/ConverterCommand.cs:124-165 | creating an element, appending children, setting `InnerText` and setting `IsEmpty` all keep an element with a short tag childless |
| Xml.XmlElement.constructor | DevMate/Commands/ConverterCommand.cs:131 | the new element object holds `NewElement(name)` |
| Xml.XmlElement.AppendChild | DevMate/Commands/ConverterCommand.cs:133 | the element becomes `WithChild` of its old value |
| Xml.XmlElement.SetInnerText | DevMate/Commands/ConverterCommand.cs:147 | the element becomes `WithInnerText` of its old value |
| Xml.XmlElement.SetIsEmpty | DevMate/Commands/ConverterCommand.cs:160 | the element becomes `WithIsEmpty` of its old value |
| Converter.Classify | DevMate/Commands/ConverterCommand.cs:97-104 | the value is an int exactly when `int.TryParse` succeeds, holding the parsed Int32; a double exactly when the int parse fails and `double.TryParse` accepts, keeping the text; a boolean exactly when both fail and `bool.TryParse` succeeds, holding its result; otherwise the original text |
| Converter.ClassifyIntText | DevMate/Commands/ConverterCommand.cs:97-98 | the text of any Int32 is classified as that integer |
| Converter.ClassifyOutOfRange | DevMate/Commands/ConverterCommand.cs:97-104 | integer text outside the Int32 range is never an int and never a bool: it is a double if `double.TryParse` accepts it, else the string itself |
| Converter.ClassifyOneIsInt | DevMate/Commands/ConverterCommand.cs:97-102 | `"1"` is the integer 1, not a boolean |
| Converter.ClassifyBoolText | DevMate/Commands/ConverterCommand.cs:101-102 | `"true"`/`"false"` are classified as that boolean, unless they read as doubles |
| Converter.ClassifyBoolAnyText | DevMate/Commands/ConverterCommand.cs:97-102 | any text that `bool.TryParse` accepts and `double.TryParse` refuses is that boolean, padding and letter case included |
| Converter.ClassifyPaddedTrue | DevMate/Commands/ConverterCommand.cs:97-102 | `" TRUE "` is the boolean true, unless it reads as a double |
| Converter.ConvertXmlToJson | DevMate/Commands/ConverterCommand.cs:89-105 | the loop builds exactly `Collect(root.children, Entry(isDouble))` |
| Converter.Put | DevMate/Commands/ConverterCommand.cs:98-104 | `result[key] = v`: the key then holds `v`; an absent key is appended to the key list and a present key keeps its place; every other key keeps its presence and its value |
| Converter.Collect | DevMate/Commands/ConverterCommand.cs:89-105 | the dictionary after visiting the children in order; its properties are stated by the `Collect` lemmas in this table |
| Converter.Entry | DevMate/Commands/ConverterCommand.cs:95-104 | the value stored for an element child: its `InnerText` through the int, double, bool, string chain, as stated by `Classify` |
| Converter.Step | DevMate/Commands/ConverterCommand.cs:93-104 | one pass of the `foreach`: an element child is put under its name, any other node is skipped; stated by `CollectPrefixStep` and `CollectSkipsNonElements` |
| Converter.CollectPrefixStep | DevMate/Commands/ConverterCommand.cs:91-105 | one more child changes the dictionary by one step |
| Converter.PutValid | DevMate/Commands/ConverterCommand.cs:98-104 | `result[key] = v` keeps each key listed once, with exactly the listed keys holding values |
| Converter.CollectValid | DevMate/Commands/ConverterCommand.cs:89-105 | each key is listed once, and exactly the listed keys have values |
| Converter.CollectKeys | DevMate/Commands/ConverterCommand.cs:91-94 | a name is a key exactly when some element child has that name |
| Converter.CollectLastWins | DevMate/Commands/ConverterCommand.cs:94-104 | a child's key holds that child's value whenever no later child has the same name (last write wins) |
| Converter.CollectOrder | DevMate/Commands/ConverterCommand.cs:94-104 | keys are listed in order of first occurrence |
| Converter.CollectSkipsNonElements | DevMate/Commands/ConverterCommand.cs:93 | a text or other non-element child between elements changes nothing |
| Converter.CollectWithoutElements | DevMate/Commands/ConverterCommand.cs:89-93 | a root with no element children yields the empty object |
| Converter.CollectDistinct | DevMate/Commands/ConverterCommand.cs:91-105 | when the element children have distinct names, there is one key per child, in order, each holding that child's value |
| Converter.CollectRepeatedName | DevMate/Commands/ConverterCommand.cs:94-104 | two children with one name give a single key holding the second child's value |
| Converter.RepeatedKeyExample | DevMate/Commands/ConverterCommand.cs:94-104 | `<a>1</a><a>2</a>` gives the single key `a` holding the integer 2 |
| Converter.Serializable | DevMate/Commands/ConverterCommand.cs:107-109 | `JsonSerializer.Serialize` succeeds when every double in the dictionary is finite |
| Converter.CollectSerializable | DevMate/Commands/ConverterCommand.cs:89-109 | when no element child reads as a NaN or infinite double, the dictionary can be written |
| Converter.CollectNotSerializable | DevMate/Commands/ConverterCommand.cs:94-109 | a NaN or infinite double that no later child of the same name replaces makes writing fail |
| Converter.Fill | DevMate/Commands/ConverterCommand.cs:124-165 | filling an element never renames it |
| Converter.Build | DevMate/Commands/ConverterCommand.cs:131-132 | a written element has the requested name |
| Converter.NamesAccepted | DevMate/Commands/ConverterCommand.cs:131 | every property key at any depth is a name `CreateElement` accepts; its meaning is stated by `PropertiesAcceptedAll` and `ItemsAcceptedAll` |
| Converter.PropertiesAcceptedAll | DevMate/Commands/ConverterCommand.cs:129-133 | the object loop's names are accepted exactly when every key is a valid element name and every name inside every value is accepted |
| Converter.ItemsAcceptedAll | DevMate/Commands/ConverterCommand.cs:138-142 | the array loop's names are accepted exactly when the names inside every item are accepted |
| Converter.PropertyRejected | DevMate/Commands/ConverterCommand.cs:131-132 | one invalid key, or one invalid name inside a value, fails the whole object |
| Converter.ItemRejected | DevMate/Commands/ConverterCommand.cs:141 | one invalid name inside an item fails the whole array |
| Converter.AppendJsonToXml | DevMate/Commands/ConverterCommand.cs:124-165 | the writer succeeds exactly when every key is a valid element name, and on success leaves the element as `Fill(json, old value)` |
| Converter.AppendProperties | DevMate/Commands/ConverterCommand.cs:128-135 | the object loop succeeds exactly when every key is accepted, and appends the property elements in order |
| Converter.AppendProperty | DevMate/Commands/ConverterCommand.cs:131-133 | one property gives one element named by its key, filled from its value and appended; on failure nothing is appended |
| Converter.AppendItems | DevMate/Commands/ConverterCommand.cs:137-144 | the array loop succeeds exactly when every item's keys are accepted, and appends the `item` elements in order |
| Converter.AppendItem | DevMate/Commands/ConverterCommand.cs:140-142 | one item gives one `item` element, filled from the item and appended; on failure nothing is appended |
| Converter.PropertyElementsAt | DevMate/Commands/ConverterCommand.cs:129-134 | property `i` is written as child `i`, named by its key |
| Converter.ItemElementsAt | DevMate/Commands/ConverterCommand.cs:138-143 | item `i` is written as child `i`, named `item` |
| Converter.BuildObjectShape | DevMate/Commands/ConverterCommand.cs:128-135 | an object gives one child element per property, named exactly by the key, in property order |
| Converter.BuildArrayShape | DevMate/Commands/ConverterCommand.cs:137-144 | an array gives one `item` child per item, in item order |
| Converter.BuildScalarShape | DevMate/Commands/ConverterCommand.cs:146-163 | string, number and boolean give one text child holding the string, the raw number text and the lower-case boolean; null and undefined give no children; for a scalar the element has a short tag exactly when it has no children |
| Converter.BuildText | DevMate/Commands/ConverterCommand.cs:95 | the `InnerText` of a written element is the JSON value's scalar text, flattened in order |
| Converter.PropertyElementsText | DevMate/Commands/ConverterCommand.cs:128-135 | the text of the property children is the properties' flattened text, in order |
| Converter.ItemElementsText | DevMate/Commands/ConverterCommand.cs:137-144 | the text of the `item` children is the items' flattened text, in order |
| Converter.ObjectThroughXml | DevMate/Commands/ConverterCommand.cs:91-104 | a JSON object with distinct keys, written to XML and read back, has its keys in property order, each holding the classified flattened text of its value |
| Converter.ScalarThroughXml | DevMate/Commands/ConverterCommand.cs:146-161 | read back through XML: a string whose text reads as no number or boolean stays that string; a boolean stays that boolean unless its text reads as a double; an Int32 number becomes that integer; null becomes `""` unless the empty text reads as a double |
| Converter.NumberOfBoolText | DevMate/Commands/ConverterCommand.cs:97 | `"true"` and `"false"` do not parse as Int32 |
| Converter.ConvertJsonToXml | DevMate/Commands/ConverterCommand.cs:112-122 | the result is the element `root` filled from the JSON value when all names are valid, and `InvalidElementName` otherwise |
| Converter.Dispatch | DevMate/Commands/ConverterCommand.cs:49-80 | XML to JSON exactly for normalised `xml`/`json`, JSON to XML exactly for normalised `json`/`xml`, nothing otherwise |
| Converter.NormalizeIgnoresPaddingAndCase | DevMate/Commands/ConverterCommand.cs:38-39 | white space around a format argument, and its letter case, do not change the normalised format |
| Converter.NormalizedBlankIsEmpty | DevMate/Commands/ConverterCommand.cs:44-45 | after normalising, a format argument is blank exactly when it is empty |
| Converter.Normalize | DevMate/Commands/ConverterCommand.cs:38-39 | `ToLower().Trim()` never lengthens the argument, and the result neither starts nor ends with white space |
| Converter.DispatchExample | DevMate/Commands/ConverterCommand.cs:38-51 | `" XML "` and `"Json"` select XML to JSON |
| Converter.Convert | DevMate/Commands/ConverterCommand.cs:36-81 | a blank format or input argument does nothing; otherwise the chosen direction's result, or its parse error, invalid-name error or (for a dictionary holding a NaN or infinite double) serialisation error, or nothing for an unsupported pair; the result is saved exactly when the output path is not blank |
| HttpRequest.Lookup | DevMate/Commands/HttpRequestCommand.cs:79-91 | a found method has the looked-up name; anything else is an out-of-range error |
| HttpRequest.MethodName | DevMate/Commands/HttpRequestCommand.cs:81-89 | each method's name in the switch is a lower-case ASCII word of at least three letters |
| HttpRequest.MapStringToMethod | DevMate/Commands/HttpRequestCommand.cs:79-91 | a mapped method's name is the lower-cased, trimmed argument; a failure is always `ArgumentOutOfRange` |
| HttpRequest.MapStringToMethodName | DevMate/Commands/HttpRequestCommand.cs:81-89 | each of the nine names maps to its own method |
| HttpRequest.MapStringToMethodDomain | DevMate/Commands/HttpRequestCommand.cs:80-90 | the argument maps to a method exactly when, normalised, it is one of the nine names; otherwise the result is `ArgumentOutOfRange`, never a default method |
| HttpRequest.LookupName | DevMate/Commands/HttpRequestCommand.cs:80-89 | the switch maps each method name back to its method |
| HttpRequest.MethodNameInjective | DevMate/Commands/HttpRequestCommand.cs:81-89 | different methods have different names |
| HttpRequest.MethodNameNormal | DevMate/Commands/HttpRequestCommand.cs:81-89 | every method name is already lower-case and trimmed |
| HttpRequest.LowerCaseWord | DevMate/Commands/HttpRequestCommand.cs:79 | `ToLower().Trim()` keeps a lower-case ASCII word unchanged |
| HttpRequest.MapStringToMethodIgnoresPaddingAndCase | DevMate/Commands/HttpRequestCommand.cs:79 | white space around the argument, and its letter case, do not change the method |
| HttpRequest.MapStringToMethodExample | DevMate/Commands/HttpRequestCommand.cs:79-81 | `" GeT "` is GET |
| HttpRequest.ParseHeader | DevMate/Commands/HttpRequestCommand.cs:54-55 | parsing fails only with `IndexOutOfRange` |
| HttpRequest.ParseHeaderFails | DevMate/Commands/HttpRequestCommand.cs:54-55 | parsing fails exactly when the header contains no `:` |
| HttpRequest.ParseHeaderFields | DevMate/Commands/HttpRequestCommand.cs:54-55 | the name is the trimmed text before the first `:`, the value the trimmed text between the first and second `:`, and anything after a second `:` is dropped |
| HttpRequest.ParseHeaderDropsAfterSecondColon | DevMate/Commands/HttpRequestCommand.cs:54-55 | `Referer: http:…` keeps only `http` as its value |
| HttpRequest.ParseAll | DevMate/Commands/HttpRequestCommand.cs:52-54 | there is one parse result per header |
| HttpRequest.ParseAllAt | DevMate/Commands/HttpRequestCommand.cs:52-54 | result `i` is the parse of header `i` |
| HttpRequest.Rejection | DevMate/Commands/HttpRequestCommand.cs:52-55 | the exception a header that is not added throws; its meaning is stated by `RejectionCause` |
| HttpRequest.RejectionCause | DevMate/Commands/HttpRequestCommand.cs:54-55 | a header that is not added fails with `IndexOutOfRange` exactly when it has no `:`, and with `HeaderRejected` exactly when it has one |
| HttpRequest.AcceptedPrefix | DevMate/Commands/HttpRequestCommand.cs:52-56 | every header before the boundary parses and is accepted next to the headers before it; the header at the boundary is the first that throws |
| HttpRequest.Entries | DevMate/Commands/HttpRequestCommand.cs:52-56 | one entry per accepted header, in order, each its parsed (name, value) pair |
| HttpRequest.EntriesStep | DevMate/Commands/HttpRequestCommand.cs:52-56 | one more accepted header adds one entry at the end |
| HttpRequest.AcceptedFrom | DevMate/Commands/HttpRequestCommand.cs:52-56 | from header `i` on, every header before the boundary parses and is accepted next to the headers before it, and the header at the boundary does not |
| HttpRequest.RunFrom | DevMate/Commands/HttpRequestCommand.cs:52-56 | the header loop from header `i` with some headers already added: the final headers and the exception, if any (its meaning is stated by `HeaderRun`) |
| HttpRequest.RunFromPrefix | DevMate/Commands/HttpRequestCommand.cs:52-56 | from header `i` on, the loop adds the headers up to the boundary of `AcceptedFrom` and reports the boundary header's rejection |
| HttpRequest.HeaderRun | DevMate/Commands/HttpRequestCommand.cs:50-56 | the loop adds exactly the headers before the first that throws, and reports that header's exception; none when all are added |
| HttpRequest.RequestHeaders.constructor | DevMate/Commands/HttpRequestCommand.cs:43 | a new request has no headers |
| HttpRequest.RequestHeaders.Add | DevMate/Commands/HttpRequestCommand.cs:55 | the pair is added exactly when `accepts` allows it next to the headers already present; an added pair goes at the end, and a refused pair changes nothing |
| HttpRequest.AddHeader | DevMate/Commands/HttpRequestCommand.cs:54-55 | one header is split, trimmed and added when it parses and is accepted next to the headers already present; otherwise it raises its error with nothing added |
| HttpRequest.AddHeaders | DevMate/Commands/HttpRequestCommand.cs:50-56 | no headers leave the request unchanged; otherwise the headers and the error are those of `RunFrom` from the request's old headers: added in array order up to the first that throws |
| HttpRequest.AddedEntries | DevMate/Commands/HttpRequestCommand.cs:50-56 | `name:value` headers, each accepted next to the ones before it, are all added, as exactly their trimmed pairs in order, with no exception |
| HttpRequest.TrimmedPairs | DevMate/Commands/HttpRequestCommand.cs:55 | the reference list of trimmed (name, value) pairs for `name:value` headers; its meaning is stated by `ParsedPairs` and `AddedEntries` |
| HttpRequest.ParsedPairs | DevMate/Commands/HttpRequestCommand.cs:54-55 | every `name:value` header parses as its trimmed pair |
| HttpRequest.EntriesOfPairs | DevMate/Commands/HttpRequestCommand.cs:52-55 | the pairs of headers that parse as given pairs are those pairs |
| HttpRequest.AllAccepted | DevMate/Commands/HttpRequestCommand.cs:52-56 | headers that all parse, each accepted next to the pairs before it, are all added with no exception |
| HttpRequest.SecondHostRefused | DevMate/Commands/HttpRequestCommand.cs:52-56 | when `accepts` refuses a second `Host`, the loop adds the first and stops at the second |

## Left out

- XML and JSON text parsing (`XmlDocument.LoadXml`, `JsonDocument.Parse`) is not modelled: these library parsers are parameters, and a parse failure is an error outcome.
- JSON serialisation, the `--pretty` indentation flag and XML text output (`OuterXml`) with its escaping are not modelled. The model stops at the dictionary and the element tree.
- `double.TryParse` is an abstract predicate, `isDouble`, because it depends on floating point and culture.
- `Numbers.ParseInt32`: models the invariant culture only. It does not model culture-specific signs or digits.
- `Numbers.ParseBool`: models the comparison with `True`/`False` only for ASCII case folding.
- `Strings.Lower`: assumes a culture in which `A`..`Z` fold to `a`..`z` and no other character changes. .NET `ToLower` uses the current culture: under a Turkish culture `I` becomes dotless `ı`, so `" OPTIONS "` would match no method and throw, which the model does not capture.
- XML name validity in `CreateElement` is abstract, as `isName`. So is header name/value validity in `HttpHeaders.Add`, as `accepts`.
- The JSON-to-XML direction stops at the first invalid name (an exception) with no result, so the partly built tree is not modelled.
- `Converter.Convert`: the "converting … failed" console branch is not modelled. The serialised results, `{…}` and `<root …>`, are never blank, so that branch cannot be reached. The serialised text itself is not modelled, only whether serialisation throws.
- `Converter.Convert`: console printing and file writes are not modelled. The outcome records only whether the result is saved.
- `Converter.Convert`: `File.ReadAllText` is not modelled. The file's content is a parameter, and a missing file is not modelled.
- The XML document is represented only by its root element. Child elements are held as values, so aliasing and later mutation of an appended child are not modelled; the converter never performs either.
- `HttpRequest.RequestHeaders.Add`: keeps entries as a list in the order added. .NET `HttpHeaders` groups several values under one name, and that grouping is not modelled; the rules by which `Add` refuses a name or value are the parameter `accepts`.
- `System.CommandLine` argument parsing (required arguments and options) is not modelled.
- `HttpClient.Send`, the request body, the response status and the response content are not modelled, because they are network I/O.
