# paramdef-search core, modelled in Dafny

paramdef-search is a tool for AUTOSAR ECUC configuration data. It reads
ECUC parameter-definition ARXML files, converts each to a nested JSON-like
mapping, and answers fuzzy queries over the keys of those mappings. It also
explores a nested configuration tree along a `Module/Container/...` path.
This project models that core and proves properties of the model:

- `Converter` models `paramdef_arxml2json.py`. It covers `text`, `multiplicity`, `parse_parameter`,
  `parse_container`, `find_module` and `convert_paramdef_to_json`. Each runs over a parsed XML tree
  (`Xml.Elem`) and returns a JSON value (`Json.Json`).
- `KeyIndex` models `get_keys` and `find_path`.
- `Ranking` models Python's stable `sorted` with the key `(-score, name)`.
- `Resolver` models the loops of `get_definition_files`, `get_definition_path_difflib`,
  `get_definition_path_rapidfuzz` and `get_close_matches_rapidfuzz`. These run over a corpus of
  loaded documents. The fuzzy scorers are function parameters. The loops skip a document without
  ECUC-MODULE-DEF, where the code as written exits; the `...AsWritten` functions model the code as
  written, and "## Findings" below explains the difference.
- `Explorer` models `explore_tree` with its helpers `child_containers` and `build_level`. It also
  holds the `ecuc` fixture and the example from the function's own documentation.
- `TextUtils` models `strip_result` and the arithmetic of `_spaces_to_tabs`.
- `Strings`, `Json`, `Xml`, `Wrappers` hold the Python built-ins the core relies on:
  - `str.lower`, `str.strip`, `split`, `join` and string ordering;
  - dict assignment, which updates a key in place and appends a new key at the end (`Json.Put`);
  - ElementTree's `find`, `findall` and `.//` search.

Where a source function changes variables in a loop, the model is a `method`
with that loop, proved equal to a pure specification function. The
properties are lemmas about that function. JSON objects are ordered lists
of key/value pairs, because the source relies on dict insertion order.

Three places where the code differs from the system's written description.
The model follows the code in each:

- `get_definition_files` returns `None`, not an empty list, when the workspace holds no
  definition file.
- A key that `get_keys` collects only from inside a list cannot be resolved by `find_path`, since
  `find_path` does not descend into lists (`KeyIndex.ListedKeyUnresolved`). For the converter's
  output every collected key does resolve (`KeyIndex.CollectedKeysResolve` together with
  `Converter.ConvertNoObjectsInLists`).
- In `explore_tree`, a top-level entry whose value is JSON `null` counts as not found, because the
  code tests `top_node is None` (`Explorer.TopNodeNone`).

## Model

| member | source | states |
|---|---|---|
| Converter.TextStripped | mcp_project/paramdef_handler/paramdef_arxml2json.py:20-21 | a missing element or one without text gives ""; otherwise the result is the element's text with surrounding whitespace removed, neither end being whitespace |
| Converter.BoundText | mcp_project/paramdef_handler/paramdef_arxml2json.py:25-26 | a bound is never empty: it is the child's stripped text when that is non-empty, and "1" when the child is missing or empty |
| Converter.Multiplicity | mcp_project/paramdef_handler/paramdef_arxml2json.py:24-33 | a multiplicity string is never empty |
| Converter.RenderRoundTrip | mcp_project/paramdef_handler/paramdef_arxml2json.py:27-33 | parsing a rendered multiplicity gives back the lower bound, and an unbounded upper bound exactly when the infinite flag is set or the upper text is "*" |
| Converter.MultiplicityRoundTrip | mcp_project/paramdef_handler/paramdef_arxml2json.py:24-33 | a multiplicity read from an element parses back to that element's lower and upper bounds |
| Converter.MultiplicityUnbounded | mcp_project/paramdef_handler/paramdef_arxml2json.py:27-30 | an unbounded element renders as "low..*" |
| Converter.MultiplicityBounded | mcp_project/paramdef_handler/paramdef_arxml2json.py:31-33 | a bounded element renders as the single bound when both bounds agree, and as "low..up" otherwise |
| Converter.MultiplicityDefault | mcp_project/paramdef_handler/paramdef_arxml2json.py:25-27 | an element without multiplicity children has multiplicity "1" |
| Converter.DotDot | mcp_project/paramdef_handler/paramdef_arxml2json.py:28-33 | finds the first ".." of a rendered multiplicity, or reports that there is none |
| Converter.ParamTypeOfQualified | mcp_project/paramdef_handler/paramdef_arxml2json.py:37-51 | the parameter type is the type-map entry of the tag's local name, or that local name when the map lacks it |
| Converter.ShortNamesExact | mcp_project/paramdef_handler/paramdef_arxml2json.py:76-79 | the literals are exactly the non-empty short names of the literal definitions |
| Converter.CollectLiterals | mcp_project/paramdef_handler/paramdef_arxml2json.py:72-81 | the loop collecting enumeration literals computes the literal list of the specification |
| Converter.BuildParameter | mcp_project/paramdef_handler/paramdef_arxml2json.py:49-81 | the field-by-field construction of a parameter object computes the specified entries |
| Converter.ParseParameter | mcp_project/paramdef_handler/paramdef_arxml2json.py:36-83 | returns the short name and the parameter object of the specification |
| Converter.FieldGet | mcp_project/paramdef_handler/paramdef_arxml2json.py:63-70 | an optional field is set to its text exactly when the text is non-empty and leaves every other key alone |
| Converter.ParamHeaderGet | mcp_project/paramdef_handler/paramdef_arxml2json.py:49-58 | the header holds type PARAMETER, the parameter type, and the multiplicity only when it is not "1" |
| Converter.ParamValuesGet | mcp_project/paramdef_handler/paramdef_arxml2json.py:60-70 | maxValue, minValue, defaultValue and description are present exactly when their texts are non-empty |
| Converter.ParamEntriesGet | mcp_project/paramdef_handler/paramdef_arxml2json.py:49-81 | the value of every key of a parameter object, including that literals appear only when there is at least one, and no other key appears |
| Converter.ParamEntriesUnique | mcp_project/paramdef_handler/paramdef_arxml2json.py:49-81 | a parameter object has no duplicate key |
| Converter.ParamEntriesStart | mcp_project/paramdef_handler/paramdef_arxml2json.py:49-52 | a parameter object starts with type and param_type, in that order |
| Converter.ChildrenOf | mcp_project/paramdef_handler/paramdef_arxml2json.py:95-97 | the children of a missing section are none, and every child is smaller than the element (termination) |
| Converter.ParametersByName | mcp_project/paramdef_handler/paramdef_arxml2json.py:94-99 | the parameter dictionary is keyed by exactly the short names of the children of PARAMETERS, and each name holds the parameter parsed from the last child with that name |
| Converter.SubContainersByName | mcp_project/paramdef_handler/paramdef_arxml2json.py:102-114 | the sub-container dictionary is keyed by exactly the short names of the SUB-CONTAINERS children and then the CHOICES children, each name holding the container parsed from the last such child, so a choice overrides a sub-container of the same name |
| Converter.CopyInto | mcp_project/paramdef_handler/paramdef_arxml2json.py:118-121 | copying a dict key by key into a target is the ordered dict update of the specification |
| Converter.ParseParameters | mcp_project/paramdef_handler/paramdef_arxml2json.py:94-99 | the parameter loop builds the dict of the parsed parameters, later names overwriting earlier ones |
| Converter.ParseChildContainers | mcp_project/paramdef_handler/paramdef_arxml2json.py:102-114 | the sub-container and choice loops add the parsed containers to the dict, later names overwriting earlier ones |
| Converter.ParseContainer | mcp_project/paramdef_handler/paramdef_arxml2json.py:86-123 | returns the short name and the container object of the specification |
| Converter.AssembleKeys | mcp_project/paramdef_handler/paramdef_arxml2json.py:116-121 | the merged container keeps its header keys first, then the parameter keys and the sub-container keys new to it, in order |
| Converter.AssembleGet | mcp_project/paramdef_handler/paramdef_arxml2json.py:116-121 | in the merged container a sub-container wins over a parameter of the same name, which wins over the header |
| Converter.AssembleUnique | mcp_project/paramdef_handler/paramdef_arxml2json.py:116-121 | merging keeps the keys unique |
| Converter.ContainerHeadShape | mcp_project/paramdef_handler/paramdef_arxml2json.py:89-91 | a container header holds type CONTAINER and, only for a non-empty description, that description |
| Converter.ContainerFields | mcp_project/paramdef_handler/paramdef_arxml2json.py:86-123 | the full key order and value lookup of a container object, whose first key is type |
| Converter.ModuleHeadGet | mcp_project/paramdef_handler/paramdef_arxml2json.py:135-138 | a module header holds type MODULE and its description, even an empty one |
| Converter.ModuleHeadFields | mcp_project/paramdef_handler/paramdef_arxml2json.py:135-144 | adding the containers to the module header keeps type and description first, and a container named like either overwrites it |
| Converter.ModuleFields | mcp_project/paramdef_handler/paramdef_arxml2json.py:132-146 | the key order and value lookup of a module object |
| Converter.FindModuleOf | mcp_project/paramdef_handler/paramdef_arxml2json.py:126-146 | the only failure is a missing module definition; a success is named after an ECUC-MODULE-DEF descendant of the root |
| Converter.FindModule | mcp_project/paramdef_handler/paramdef_arxml2json.py:126-146 | the container loop of find_module computes the specified module |
| Converter.Convert | mcp_project/paramdef_handler/paramdef_arxml2json.py:149-159 | an unparsable file fails to parse, a parsed one fails exactly when there is no module, and a success is an object with one key |
| Converter.ConvertParamdefToJson | mcp_project/paramdef_handler/paramdef_arxml2json.py:149-159 | the conversion method computes the specified result |
| Converter.ConvertOutcome | mcp_project/paramdef_handler/paramdef_arxml2json.py:126-159 | the three outcomes: parse failure, no module, or {module name: module object} for the first ECUC-MODULE-DEF in document order |
| Converter.ConvertNoObjectsInLists | mcp_project/paramdef_handler/paramdef_arxml2json.py:49-146 | converter output never holds an object inside a list, since the only lists are literal names |
| Converter.ContainerNoObjectsInLists | mcp_project/paramdef_handler/paramdef_arxml2json.py:86-123 | the same for every container object |
| Converter.Text | mcp_project/paramdef_handler/paramdef_arxml2json.py:20-21 | the reference definition of `text`; `TextStripped` states what it returns |
| Converter.ParamType | mcp_project/paramdef_handler/paramdef_arxml2json.py:37-51 | the reference definition of the type-map lookup with the raw tag as fallback; `ParamTypeOfQualified` states it per tag |
| Converter.ParamEntries | mcp_project/paramdef_handler/paramdef_arxml2json.py:49-81 | the reference definition of the parameter dictionary; `ParamEntriesGet`, `ParamEntriesUnique` and `ParamEntriesStart` state its fields and key order |
| Converter.ParameterOf | mcp_project/paramdef_handler/paramdef_arxml2json.py:36-83 | the reference definition of `parse_parameter`, which `ParseParameter` is proved to compute |
| Converter.Assemble | mcp_project/paramdef_handler/paramdef_arxml2json.py:116-121 | the reference definition of the final copy loops; `AssembleKeys`, `AssembleGet` and `AssembleUnique` state the merge |
| Converter.ContainerEntries | mcp_project/paramdef_handler/paramdef_arxml2json.py:86-123 | the reference definition of the container dictionary; `ContainerFields` states every field |
| Converter.ModuleEntries | mcp_project/paramdef_handler/paramdef_arxml2json.py:132-146 | the reference definition of the module dictionary; `ModuleFields` states every field |
| Xml.Find | mcp_project/paramdef_handler/paramdef_arxml2json.py:17 | `find` with the AUTOSAR namespace returns a direct child with that qualified tag, or none when no child has it |
| Xml.FindEnglishDescFound | mcp_project/paramdef_handler/paramdef_arxml2json.py:48 | the description is an English L-2 element under a DESC child, and is absent only when no such element exists |
| Xml.FindDescendantFound | mcp_project/paramdef_handler/paramdef_arxml2json.py:128 | the `.//` search finds a descendant with the tag, and fails only when no descendant has it |
| Xml.LocalNameOfQualified | mcp_project/paramdef_handler/paramdef_arxml2json.py:37 | the part of a qualified tag after '}' is its local name |
| Xml.FindAll | mcp_project/paramdef_handler/paramdef_arxml2json.py:76 | the reference definition of `findall`: every direct child with the qualified tag, in document order |
| Xml.FindEnglishDesc | mcp_project/paramdef_handler/paramdef_arxml2json.py:48 | the reference definition of the `DESC/L-2[@L="EN"]` path; `FindEnglishDescFound` states it |
| Xml.FindDescendant | mcp_project/paramdef_handler/paramdef_arxml2json.py:128 | the reference definition of the `.//` search; `FindDescendantFound` states it |
| Xml.LocalName | mcp_project/paramdef_handler/paramdef_arxml2json.py:37 | the part after the last `}` holds no `}`; `LocalNameOfQualified` states the local name of a qualified tag |
| Json.PutGet | mcp_project/paramdef_handler/paramdef_arxml2json.py:99 | after `d[k] = v`, k maps to v and every other key keeps its value |
| Json.Put | mcp_project/paramdef_handler/paramdef_arxml2json.py:99 | assigning a new key appends it at the end, and assigning an existing key keeps the key order |
| Json.PutAllGet | mcp_project/paramdef_handler/paramdef_arxml2json.py:118-121 | after a sequence of assignments, a key holds its last assigned value, or its old value when it was not assigned |
| Json.PutAllEntries | mcp_project/paramdef_handler/paramdef_arxml2json.py:118-121 | assignments keep an object's keys unique and add only the assigned pairs |
| KeyIndex.GetKeys | mcp_project/utils/generic_utils.py:60-70 | the recursive key collection computes the specified key set |
| KeyIndex.KeySet | mcp_project/utils/generic_utils.py:60-70 | a value that is neither an object nor a list has no keys |
| KeyIndex.KeysComplete | mcp_project/utils/generic_utils.py:60-70 | every key of an object reachable through objects and lists is collected |
| KeyIndex.KeysSound | mcp_project/utils/generic_utils.py:60-70 | every collected key is the key of some reachable object |
| KeyIndex.KeysExample | mcp_project/utils/generic_utils.py:60-70 | keys of nested objects and of objects inside lists are all collected |
| KeyIndex.FindFrom | mcp_project/paramdef_handler/paramdef_utils.py:87-107 | a found path extends the path so far and ends in a key equal to the target ignoring case |
| KeyIndex.FindPath | mcp_project/paramdef_handler/paramdef_utils.py:87-107 | a found path is non-empty and ends in a key equal to the target ignoring case |
| KeyIndex.FindPathFirstMatch | mcp_project/paramdef_handler/paramdef_utils.py:87-107 | the recursive search returns the first matching route in depth-first, insertion-order enumeration |
| KeyIndex.FindPathSpec | mcp_project/paramdef_handler/paramdef_utils.py:87-107 | the search fails exactly when no route through nested objects ends in a matching key; a found path is such a route |
| KeyIndex.RoutesExact | mcp_project/paramdef_handler/paramdef_utils.py:99-106 | the enumerated routes are exactly the non-empty routes through nested objects |
| KeyIndex.CollectedKeysResolve | mcp_project/paramdef_handler/paramdef_utils.py:124-130 | in an object with no objects inside lists, every collected key resolves to a path |
| KeyIndex.ListedKeyUnresolved | mcp_project/paramdef_handler/paramdef_utils.py:99-107 | a key that occurs only under a list is collected but not found |
| KeyIndex.FlatKeys | mcp_project/utils/generic_utils.py:63-66 | for an object none of whose values is an object or a list, the collected keys are exactly its keys |
| Ranking.SortByCorrect | mcp_project/paramdef_handler/paramdef_utils.py:48 | the sort by (-score, name) is ordered, is a permutation of its input, and keeps the input order of equal keys |
| Ranking.SortBySorted | mcp_project/paramdef_handler/paramdef_utils.py:83 | sorting an already sorted sequence changes nothing |
| Ranking.RankLeTransitive | mcp_project/paramdef_handler/paramdef_utils.py:48 | the tuple order (-score, name) is transitive |
| Ranking.RankLeAntisymmetric | mcp_project/paramdef_handler/paramdef_utils.py:48 | two results with the same order key are the same key |
| Ranking.SortBy | mcp_project/paramdef_handler/paramdef_utils.py:48 | the reference definition of the stable `sorted`; `SortByCorrect` states it |
| Resolver.CloseMatchesRapidfuzzSorted | mcp_project/paramdef_handler/paramdef_utils.py:38-48 | the rapidfuzz matches come ordered by descending score then name, as a permutation of what the scorer returned |
| Resolver.Load | mcp_project/paramdef_handler/paramdef_utils.py:67-70 | a loaded document succeeds exactly when conversion does, holding the converted object or the conversion error |
| Resolver.SurvivorsAsWrittenExits | mcp_project/paramdef_handler/paramdef_utils.py:65-70 | as written, the whole search aborts exactly when some document has no module definition; otherwise it keeps the documents that converted |
| Resolver.MissingModuleAborts | mcp_project/paramdef_handler/paramdef_utils.py:65-70 | one document without a module hides a later good document as written, which the corrected loop keeps |
| Resolver.SurvivorsExact | mcp_project/paramdef_handler/paramdef_utils.py:65-70 | the documents that take part are exactly those that converted, in order |
| Resolver.SurvivorsSkipFailed | mcp_project/paramdef_handler/paramdef_utils.py:67-70 | a failed document is skipped without affecting the others |
| Resolver.SurvivorsOfLoaded | mcp_project/paramdef_handler/paramdef_utils.py:65-70 | every file that converts takes part in the search |
| Resolver.GetDefinitionFiles | mcp_project/paramdef_handler/paramdef_utils.py:50-85 | the loop over documents computes the corrected result, skipping a document without ECUC-MODULE-DEF (see Findings) |
| Resolver.DefinitionFilesSpec | mcp_project/paramdef_handler/paramdef_utils.py:50-85 | the result is None exactly for an empty workspace; otherwise it is the matches of all documents sorted by (-score, key), a stable permutation |
| Resolver.FileMatchesExact | mcp_project/paramdef_handler/paramdef_utils.py:65-81 | a match is reported exactly when its file converted and the scorer returned its key with its score for that file's keys |
| Resolver.DocFileMatchesExact | mcp_project/paramdef_handler/paramdef_utils.py:72-81 | the same for one document |
| Resolver.FileMatchesOrder | mcp_project/paramdef_handler/paramdef_utils.py:65-81 | matches are grouped by document in document order, and a failed document contributes none |
| Resolver.GetDefinitionPathDifflib | mcp_project/paramdef_handler/paramdef_utils.py:109-135 | the nested loops compute the corrected list of paths, skipping a document without ECUC-MODULE-DEF (see Findings) |
| Resolver.DifflibPathsExact | mcp_project/paramdef_handler/paramdef_utils.py:109-135 | a path is reported exactly when its file converted, the scorer proposed a key, find_path resolved it, and the path is the route joined by '/' |
| Resolver.DocPathsExact | mcp_project/paramdef_handler/paramdef_utils.py:123-134 | the same for one document |
| Resolver.PathsForExact | mcp_project/paramdef_handler/paramdef_utils.py:127-134 | the same for one document's list of proposed keys |
| Resolver.DifflibPathsOrder | mcp_project/paramdef_handler/paramdef_utils.py:117-134 | paths are grouped by document in document order, and a failed document contributes none |
| Resolver.PathMatchesKey | mcp_project/paramdef_handler/paramdef_utils.py:129-134 | every reported path is a joined route whose last key equals the proposed key ignoring case |
| Resolver.PathsForComplete | mcp_project/paramdef_handler/paramdef_utils.py:127-134 | when every proposed key was collected from an object without objects in lists, each proposal yields one path |
| Resolver.LoadedPathsComplete | mcp_project/paramdef_handler/paramdef_utils.py:118-134 | for a converted file and a scorer proposing only given keys, there are as many paths as proposals |
| Resolver.GetDefinitionPathRapidfuzz | mcp_project/paramdef_handler/paramdef_utils.py:137-171 | the loops and the final sort compute the corrected list of scored paths, skipping a document without ECUC-MODULE-DEF (see Findings) |
| Resolver.RapidfuzzPathsSorted | mcp_project/paramdef_handler/paramdef_utils.py:170-171 | the result is sorted by (-score, path), a stable permutation of the collected paths |
| Resolver.RapidfuzzPathsExact | mcp_project/paramdef_handler/paramdef_utils.py:137-171 | a scored path is reported exactly when its file converted, the scorer returned its key with that score, and find_path resolved the key to that path |
| Resolver.DocScoredPathsExact | mcp_project/paramdef_handler/paramdef_utils.py:153-169 | the same for one document |
| Resolver.ScoredPathsForExact | mcp_project/paramdef_handler/paramdef_utils.py:161-169 | the same for one document's scored proposals |
| Resolver.CloseMatchesRapidfuzz | mcp_project/paramdef_handler/paramdef_utils.py:38-48 | the reference definition of the ranked matches; `CloseMatchesRapidfuzzSorted` states it |
| Resolver.SurvivorsAsWritten | mcp_project/paramdef_handler/paramdef_utils.py:67-70 | the documents the loops go on with as written: the call exits on a document without ECUC-MODULE-DEF; `SurvivorsAsWrittenExits` states when |
| Resolver.Survivors | mcp_project/paramdef_handler/paramdef_utils.py:67-70 | the documents the corrected loops go on with, every failed one skipped; `SurvivorsExact` and `SurvivorsSkipFailed` state it |
| Resolver.DefinitionFiles | mcp_project/paramdef_handler/paramdef_utils.py:50-85 | the reference definition of the corrected `get_definition_files`; `DefinitionFilesSpec` and `FileMatchesExact` state it |
| Resolver.DifflibPaths | mcp_project/paramdef_handler/paramdef_utils.py:109-135 | the reference definition of the corrected difflib search; `DifflibPathsExact` and `DifflibPathsOrder` state it |
| Resolver.RapidfuzzPaths | mcp_project/paramdef_handler/paramdef_utils.py:137-171 | the reference definition of the corrected RapidFuzz search; `RapidfuzzPathsExact` and `RapidfuzzPathsSorted` state it |
| Resolver.FileMatchesSurvivors | mcp_project/paramdef_handler/paramdef_utils.py:65-81 | the corrected `get_definition_files` reports, document after document, the matches of the converted documents only |
| Resolver.DifflibPathsSurvivors | mcp_project/paramdef_handler/paramdef_utils.py:115-135 | the corrected difflib search reports the paths of the converted documents only |
| Resolver.RapidfuzzPathsSurvivors | mcp_project/paramdef_handler/paramdef_utils.py:144-169 | the corrected RapidFuzz search collects the scored paths of the converted documents only |
| Resolver.DefinitionFilesAsWritten | mcp_project/paramdef_handler/paramdef_utils.py:50-85 | `get_definition_files` as written, exiting on a document without ECUC-MODULE-DEF |
| Resolver.DifflibPathsAsWritten | mcp_project/paramdef_handler/paramdef_utils.py:109-135 | `get_definition_path_difflib` as written, exiting on a document without ECUC-MODULE-DEF |
| Resolver.RapidfuzzPathsAsWritten | mcp_project/paramdef_handler/paramdef_utils.py:137-171 | `get_definition_path_rapidfuzz` as written, exiting on a document without ECUC-MODULE-DEF |
| Resolver.DefinitionFilesAsWrittenAgrees | mcp_project/paramdef_handler/paramdef_utils.py:50-85 | as written the call exits exactly when some document has no module definition, and otherwise returns what the corrected loop returns |
| Resolver.DifflibPathsAsWrittenAgrees | mcp_project/paramdef_handler/paramdef_utils.py:109-135 | the same for the difflib search |
| Resolver.RapidfuzzPathsAsWrittenAgrees | mcp_project/paramdef_handler/paramdef_utils.py:137-171 | the same for the RapidFuzz search |
| Resolver.MissingModuleHidesResults | mcp_project/paramdef_handler/paramdef_utils.py:67-70 | with a first file lacking ECUC-MODULE-DEF, all three searches exit as written, while the corrected ones return exactly the second file's results |
| Explorer.DictValued | mcp_project/model_mngr/mcp_dummy_data.py:61 | the filtered entries are exactly those whose value is an object |
| Explorer.ChildContainersCases | mcp_project/model_mngr/mcp_dummy_data.py:55-61 | a non-object has no children; an object "containers" entry gives its entries; otherwise the children are the object-valued entries |
| Explorer.PartsShape | mcp_project/model_mngr/mcp_dummy_data.py:65 | every path part is non-empty and holds no '/' |
| Explorer.OnlySlashes | mcp_project/model_mngr/mcp_dummy_data.py:65-67 | a path of slashes only has no parts |
| Explorer.PartsOfJoin | mcp_project/model_mngr/mcp_dummy_data.py:65 | splitting segments joined by '/' gives the segments back |
| Explorer.ExactMatchFound | mcp_project/model_mngr/mcp_dummy_data.py:70-74 | the exact lookup returns the value of a key equal to the first part ignoring case, and fails only when there is none |
| Explorer.ExactMatchFirst | mcp_project/model_mngr/mcp_dummy_data.py:71-74 | the exact lookup takes the first such key |
| Explorer.PrefixMatchFound | mcp_project/model_mngr/mcp_dummy_data.py:75-80 | the fallback returns the value of a key starting with the first part ignoring case, and fails only when there is none |
| Explorer.TopNodeSpec | mcp_project/model_mngr/mcp_dummy_data.py:69-82 | a top node is never null and sits under a key the first part prefixes |
| Explorer.TopNodeExact | mcp_project/model_mngr/mcp_dummy_data.py:70-74 | a first non-null exact match is the top node |
| Explorer.TopNodeNone | mcp_project/model_mngr/mcp_dummy_data.py:69-82 | there is no top node exactly when both searches fail or find null |
| Explorer.MatchingExact | mcp_project/model_mngr/mcp_dummy_data.py:89-93 | the matched children are exactly those whose name starts with the part ignoring case |
| Explorer.Placeholders | mcp_project/model_mngr/mcp_dummy_data.py:95 | the placeholder mapping has the same names as the matched children |
| Explorer.BuildLevel | mcp_project/model_mngr/mcp_dummy_data.py:86-99 | the recursive builder computes the specified level |
| Explorer.LevelKeys | mcp_project/model_mngr/mcp_dummy_data.py:86-99 | a level's keys are exactly the names of child containers matching the part |
| Explorer.LevelNested | mcp_project/model_mngr/mcp_dummy_data.py:86-99 | a level holds only objects, nested no deeper than the parts remaining, with empty objects at the last level |
| Explorer.FirstDictFound | mcp_project/model_mngr/mcp_dummy_data.py:112-120 | the fallback top entry is the first entry whose value is an object, absent only when there is none |
| Explorer.Rows | mcp_project/model_mngr/mcp_dummy_data.py:123-128 | the first level of the two-level listing has the names of the child containers |
| Explorer.TwoLevelsShape | mcp_project/model_mngr/mcp_dummy_data.py:122-128 | the two-level listing is nested at most two deep and its first-level names are the child containers |
| Explorer.FindTopNode | mcp_project/model_mngr/mcp_dummy_data.py:69-82 | the two search loops compute the specified top node |
| Explorer.FindFirstDict | mcp_project/model_mngr/mcp_dummy_data.py:112-118 | the loop computes the first object-valued entry |
| Explorer.ListTwoLevels | mcp_project/model_mngr/mcp_dummy_data.py:122-128 | the nested loops compute the specified two-level listing |
| Explorer.ExploreTree | mcp_project/model_mngr/mcp_dummy_data.py:39-129 | the whole explorer computes the specified result |
| Explorer.ExploreWithPath | mcp_project/model_mngr/mcp_dummy_data.py:64-107 | with a path the result is empty exactly when there are no parts or no top node; otherwise it has the single key of the first part and bounded depth |
| Explorer.ExploreOnePart | mcp_project/model_mngr/mcp_dummy_data.py:101-104 | with one part the top node's child containers are listed, each mapped to an empty object |
| Explorer.ExploreDeep | mcp_project/model_mngr/mcp_dummy_data.py:84-107 | with several parts the result maps the first part to the level built from the top node at the second part |
| Explorer.ExploreWithoutPath | mcp_project/model_mngr/mcp_dummy_data.py:109-129 | without a path the result is empty exactly when no entry is an object; otherwise it lists two levels under the first such entry |
| Explorer.ContainersOf | mcp_project/model_mngr/mcp_dummy_data.py:58-60 | a node with an object "containers" entry has exactly those children |
| Explorer.ExampleTop | mcp_project/model_mngr/mcp_dummy_data.py:1-37 | in the fixture the path part "Com" finds the Com module |
| Explorer.ExampleFor | mcp_project/model_mngr/mcp_dummy_data.py:44-49 | every path with the documented parts gives the documented result on the fixture |
| Explorer.WorkedExample | mcp_project/model_mngr/mcp_dummy_data.py:43-49 | on the fixture, 'Com/ComConfig/ComIPdu' gives {'Com': {'ComConfig_0': {'ComIPdu_ESP_10': {}, 'ComIPdu_ESP_19': {}}}} |
| Explorer.ChildContainers | mcp_project/model_mngr/mcp_dummy_data.py:55-61 | the reference definition of `child_containers`; `ChildContainersCases` states its three branches |
| Explorer.Parts | mcp_project/model_mngr/mcp_dummy_data.py:65 | the reference definition of the path parts; `PartsShape`, `OnlySlashes` and `PartsOfJoin` state them |
| Explorer.TopNode | mcp_project/model_mngr/mcp_dummy_data.py:69-82 | the reference definition of the top-node search; `TopNodeSpec`, `TopNodeExact` and `TopNodeNone` state it |
| Explorer.Level | mcp_project/model_mngr/mcp_dummy_data.py:86-99 | the reference definition of `build_level`; `LevelKeys` and `LevelNested` state it |
| Explorer.Explore | mcp_project/model_mngr/mcp_dummy_data.py:39-129 | the reference definition of `explore_tree`; `ExploreWithPath`, `ExploreOnePart`, `ExploreDeep` and `ExploreWithoutPath` state it |
| TextUtils.PathSeparator | mcp_project/utils/generic_utils.py:91 | the separator is a backslash exactly when the path holds one, and a slash otherwise |
| TextUtils.StripResultSpec | mcp_project/utils/generic_utils.py:89-93 | None exactly for no result; otherwise the lower-cased last segment of the first file, a suffix after its last separator, holding no separator and no upper-case letter |
| TextUtils.StripResultBareName | mcp_project/utils/generic_utils.py:89-93 | a file name without separators is returned whole, lower-cased |
| TextUtils.SpacesToTabsSpec | mcp_project/utils/generic_utils.py:49-54 | count // indent tabs followed by count % indent spaces, fewer spaces than one tab, and the same indentation width as the spaces replaced |
| TextUtils.StripResult | mcp_project/utils/generic_utils.py:89-93 | the reference definition of `strip_result`; `StripResultSpec` states it |
| TextUtils.SpacesToTabs | mcp_project/utils/generic_utils.py:49-54 | the reference definition of one run's rewrite; `SpacesToTabsSpec` states it |
| Strings.JoinSplit | mcp_project/model_mngr/mcp_dummy_data.py:65 | joining the pieces of a split gives the string back |
| Strings.SplitJoin | mcp_project/paramdef_handler/paramdef_utils.py:133 | splitting a join of separator-free pieces gives the pieces back |
| Strings.LastSegmentIsSuffix | mcp_project/utils/generic_utils.py:92 | the last split piece is a separator-free suffix that follows a separator or is the whole string |
| Strings.StrLeTotal | mcp_project/paramdef_handler/paramdef_utils.py:83 | Python's string order is total |
| Strings.Lower | mcp_project/paramdef_handler/paramdef_utils.py:97 | `str.lower` on ASCII: same length, each character lower-cased |
| Strings.Strip | mcp_project/paramdef_handler/paramdef_arxml2json.py:21 | `str.strip`: the result neither starts nor ends with whitespace and is the input with whitespace runs removed at both ends |
| Strings.Split | mcp_project/model_mngr/mcp_dummy_data.py:65 | `str.split` on one character: at least one piece, no piece holding the separator; `JoinSplit` makes it an inverse of `Join` |
| Strings.Join | mcp_project/paramdef_handler/paramdef_utils.py:133 | the reference definition of `str.join`; `SplitJoin` and `JoinSplit` state it |

## Left out

- File system access is left out. `get_all_paramdef_files` and its glob, `ET.parse`, and reading and
  writing files are not modelled. A document (`Resolver.Doc`) is given as its path and the outcome of
  converting it, `Result<Entries, ConvertError>`. `Resolver.Load` builds it from an `Option<Elem>`
  parsed tree, where `None` stands for an ARXML file that does not parse. That error is an
  `Exception`, which the callers catch.
- The fuzzy scorers are left out. These are `difflib.get_close_matches` and rapidfuzz's
  `process.extract` with `fuzz.WRatio`, its `limit` and its `score_cutoff`. Each is a function
  parameter that takes the keyword and the key set. Scores are integer percentages.
- Resolver.FileMatch: the score division `score / 100.0` to a float is not modelled, because the
  model has no floating point. The integer percentage is kept.
- Resolver.Extract: the third element of each `process.extract` result, the index, is dropped,
  because no caller reads it.
- Resolver.CloseMatches: the keys are passed as a set. `list(get_keys(data))` fixes an iteration
  order that Python leaves unspecified, and only the scorer sees that order.
- Strings.Lower: lower-cases ASCII letters only. Python's `str.lower` also maps non-ASCII letters.
- Xml.LocalName: tags whose local part holds `}` are not considered. AUTOSAR tags never do.
- TextUtils.StripResult: takes the list of `file` fields rather than the list of result
  dictionaries, because it reads nothing else.
- TextUtils.SpacesToTabs: requires `indent >= 1`. With 0 the source raises `ZeroDivisionError`, and
  a negative indent is not modelled. The `re.sub` scan for runs of leading spaces, and the rest of
  `export2json`, are not modelled. Only the arithmetic for one run is.
- GetDefinitionFiles: follows the corrected loop, which skips a document without ECUC-MODULE-DEF. As
  written the call exits there; `DefinitionFilesAsWritten` models that (see Findings).
- GetDefinitionPathDifflib: follows the corrected loop in the same way; `DifflibPathsAsWritten`
  models the call as written.
- GetDefinitionPathRapidfuzz: follows the corrected loop in the same way; `RapidfuzzPathsAsWritten`
  models the call as written.
- DefinitionFilesSpec: states the corrected result. As written the call exits instead when some
  document has no module definition (`DefinitionFilesAsWrittenAgrees`).
- FileMatchesExact: states the corrected matches. As written a document without a module
  definition ends the call, so no match is reported (`DefinitionFilesAsWrittenAgrees`).
- FileMatchesOrder: a failed document contributes nothing in the corrected loop. As written a
  document without a module definition ends the call instead.
- DifflibPathsExact: states the corrected paths. As written the call exits on a document without a
  module definition (`DifflibPathsAsWrittenAgrees`).
- DifflibPathsOrder: a failed document contributes nothing in the corrected loop. As written a
  document without a module definition ends the call instead.
- RapidfuzzPathsExact: states the corrected paths. As written the call exits on a document without
  a module definition (`RapidfuzzPathsAsWrittenAgrees`).
- Logging, `print` banners and the `info`/`debug`/`error` helpers are left out. They do not affect
  results.
- `load_json`, `get_precise_time`, `test_utils`, `export2json` and the command-line entry points are
  not part of this model. Neither are `mcp_server.py`, `mcp_settings.py`,
  `mcp_transport_configurator.py` or the ECUC configurator.

## Findings

| source | as written | input that shows it | evidently intended | confidence | as-written member | corrected member |
|---|---|---|---|---|---|---|
| mcp_project/paramdef_handler/paramdef_utils.py:67-70 (also 118-121, 147-150; raised at mcp_project/paramdef_handler/paramdef_arxml2json.py:129-130) | `find_module` raises `SystemExit` when a file has no ECUC-MODULE-DEF. `SystemExit` is not an `Exception`, so `except Exception: continue` does not catch it, and one such file aborts the whole search. | a workspace of two parseable files: a.arxml without ECUC-MODULE-DEF, then b.arxml with one. No result is produced, and b.arxml is never examined (`Resolver.MissingModuleAborts`, `Resolver.MissingModuleHidesResults`). | skip the file like any other file that fails to convert, and search the rest | not executed | Resolver.SurvivorsAsWritten and Resolver.DefinitionFilesAsWritten, Resolver.DifflibPathsAsWritten, Resolver.RapidfuzzPathsAsWritten (with Resolver.SurvivorsAsWrittenExits and the three `AsWrittenAgrees` lemmas) | Resolver.Survivors, on which Resolver.DefinitionFiles, Resolver.DifflibPaths and Resolver.RapidfuzzPaths run (Resolver.FileMatchesSurvivors, Resolver.DifflibPathsSurvivors, Resolver.RapidfuzzPathsSurvivors) |
