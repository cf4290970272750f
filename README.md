# tidy_obsidian_records, modelled in Dafny

tidy_obsidian_records fills in laboratory record templates and pastes them into
an Obsidian vault. This project models four parts of it.

- **The PrairieView metadata reader** (`records/prairieview.py`). It reads the
  XML state file of a Bruker PrairieView two-photon microscope. From it, it
  builds the session record, the system identifier, the imaging parameters and
  the sequence frame-time matrices. Grouped state values become named tuples.
  It also reads the per-plane metadata of a multi-plane acquisition from a MAT
  file.
- **The records tables** (`records/tables.py`). These are the registry of table
  classes by name and alias, the collection of a template's tables, the cage
  number validator, the grid of the filling dialog, and the container of
  default values that the dialog starts from.
- **The template registry** (`records/templates.py`). Templates are registered
  by key; a key cannot be registered twice. When a template was added, the
  registry is written back to its JSON file.
- **The Jinja filters** (`records/filters.py`). These are the filter registry,
  the copying of filters into an environment, and `split_to_list`. Both
  `templates.py` and `filters.py` carry a copy of the two rendering helpers,
  `_set_html_value_types` and `render_links`.

## Files

| file | module | contents |
|---|---|---|
| `wrappers.dfy` | `Wrappers` | `Option` and `Result` |
| `text.dfy` | `Text` | these Python string operations and their laws: `in`, `replace`, `split`, `join`, `lower`, repetition, `isdigit`, decimal formatting |
| `xml.dfy` | `Xml` | element trees with `get`, `find` and `findall` |
| `prairieview_names.dfy` | `PrairieViewNames` | library hooks, errors, alias generators, the descriptive-name resolver, float conversion and `namedtuple(rename=True)` |
| `prairieview_groups.dfy` | `PrairieViewGroups` | the indexed and sub-indexed extractors and the frame-time collector |
| `prairieview_imaging.dfy` | `PrairieViewImaging` | the imaging dictionary and its validation as `PVImagingMeta` |
| `prairieview_sections.dfy` | `PrairieViewSections` | session, system identifier, sequence, plane and channel counts, and `load_metadata` |
| `prairieview_planes.dfy` | `PrairieViewPlanes` | `load_plane_metadata` over nested MAT arrays |
| `markup.dfy` | `Markup` | `_set_html_value_types` and `render_links` |
| `tables.dfy` | `Tables` | the table registry, cage validation, the grid and the fields container |
| `templates.dfy` | `Templates` | the template registry and its saved text |
| `filters.dfy` | `Filters` | the filter registry, `add_filters` and `split_to_list` |

Code the reader calls but that is not part of this model is passed in as
function values of the `Lib` datatype. This covers pydantic's `to_snake` and
`to_camel`, Python's `float(str)` and `str.isidentifier`. For `float`, `None`
stands for the ValueError it raises. Python's keywords are a constant. The template serialiser is likewise a parameter of
`TemplateRegistry.Save`.

Where the code behaves differently from what its names suggest, the model
follows the code:

- The frame-time matrices get one row per child of the first `Sequence`
  element. Each row collects the `Frame` children of that child.
- `num_planes` counts all children of the first frame.
- A missing `Sequence`, `Frame`, `SystemIDs` or `PVStateShard` element is an
  error, not an absent section. The code calls methods on the `None` that
  `find` returns.

## Model

| member | source | states |
|---|---|---|
| Xml.Lookup | records/prairieview.py:22 | an attribute value is found exactly when some attribute has the name, and it is that attribute's value |
| Xml.GetOr | records/prairieview.py:28 | `get(name, fallback)` is the attribute's value when present, else the fallback |
| Xml.FindAll | records/prairieview.py:66 | `findall(tag)` holds exactly the children with the tag, and no more of them than there are children |
| Xml.Find | records/prairieview.py:180 | `find(tag)` returns a child with the tag, and None only when no child has it |
| Xml.FindIsFirstOfFindAll | records/prairieview.py:211 | `find` returns the first child with the tag: the first element `findall` lists, with no earlier child of that tag |
| PrairieViewNames.SnakeAlias | records/prairieview.py:16-17 | the snake alias contains no space |
| PrairieViewNames.CamelAlias | records/prairieview.py:12-13 | the camel alias contains no space |
| PrairieViewNames.DescriptiveName | records/prairieview.py:20-24 | the name comes from `description`, else `subindex`, else `index`, snake-cased; KeyError with the tag when none is present; no space in a name |
| PrairieViewNames.DescriptiveNames | records/prairieview.py:29 | one name per element, each the resolver's, or the KeyError of the first element that has none |
| PrairieViewNames.ParseValues | records/prairieview.py:32 | every value converted in order, or the error of the first that fails |
| PrairieViewNames.Renamed | records/prairieview.py:31 | renaming keeps the number of field names; a name is replaced by `_i` when it is no identifier, a keyword, starts with an underscore or repeats an earlier one |
| PrairieViewNames.RenamedDistinct | records/prairieview.py:31 | after `rename=True` the field names are pairwise distinct |
| PrairieViewNames.RenamedKeepsPlainNames | records/prairieview.py:31 | distinct identifiers that are not keywords and do not start with an underscore are kept unchanged |
| PrairieViewNames.MakeGroup | records/prairieview.py:31-33 | a type name that is no identifier or a keyword is a ValueError; a built tuple has the type name and one field and one value per entry |
| PrairieViewNames.MakeGroupContents | records/prairieview.py:31-33 | a tuple is built exactly when the type name is valid and every value converts; its fields are the renamed entry names and its values the converted values |
| PrairieViewGroups.ExtractIndexMeta | records/prairieview.py:27-33 | an indexed tuple is named after the parent's key ("ANONYMOUS" without one) and has one field per nested element |
| PrairieViewGroups.IndexMetaFields | records/prairieview.py:27-33 | field i is the resolved name of element i and value i is the float of its `value`; a KeyError of the resolver comes before the type-name ValueError, which comes before any conversion error |
| PrairieViewGroups.ChildEntries | records/prairieview.py:47-57 | a nested element with other than one child gives one entry per child |
| PrairieViewGroups.ExtractSubindexMeta | records/prairieview.py:36-60 | the loops build the same tuple as the sub-indexed group function |
| PrairieViewGroups.AppendChildEntries | records/prairieview.py:47-57 | the inner loop appends exactly the entries of the children, `<nested>_<child>` in order, or stops at the first name that does not resolve |
| PrairieViewGroups.ChildEntriesNames | records/prairieview.py:47-57 | when every name resolves, child i gives the field `<nested>_<child i>` with the child's `value` |
| PrairieViewGroups.ContributionShape | records/prairieview.py:43-57 | one child gives one field named after the nested element; no children give nothing; several children give `<nested>_<child>` each |
| PrairieViewGroups.SubindexArity | records/prairieview.py:42-58 | the tuple's arity is the sum of the nested elements' contributions |
| PrairieViewGroups.ContributionsArity | records/prairieview.py:42-57 | the nested elements together give as many entries as the sum of their widths: one for a single child, one per child otherwise |
| PrairieViewGroups.FramesWith | records/prairieview.py:66-67 | the frames kept are exactly those that carry the attribute |
| PrairieViewGroups.CollectFrameTimes | records/prairieview.py:63-68 | one time per `Frame` child carrying the key, in document order, each the float of its attribute; it succeeds exactly when every kept attribute converts, and the only possible failure is a malformed number |
| PrairieViewImaging.ApplyWritesKeys | records/prairieview.py:193-206 | the dictionary holds exactly the keys that were assigned |
| PrairieViewImaging.LastWriteWins | records/prairieview.py:198-206 | a key holds the value of its last assignment |
| PrairieViewImaging.PlainWrite | records/prairieview.py:193-197 | a state value with a `value` assigns it under its `key`; one without assigns nothing |
| PrairieViewImaging.SlotWrite | records/prairieview.py:198-206 | grouped children write only to the state value's slot (`key`, else the tag): the indexed tuple, then the sub-indexed tuple |
| PrairieViewImaging.AssembleImagingValues | records/prairieview.py:191-206 | the comprehension and the loop build the imaging dictionary function's result |
| PrairieViewImaging.WriteSlot | records/prairieview.py:199-206 | one pass of the loop puts the indexed tuple, then the sub-indexed tuple, in the state value's slot of the dictionary, or fails with the first error |
| PrairieViewImaging.ImagingValuesKeys | records/prairieview.py:192-206 | a key is in the dictionary exactly when it is the `key` of a state value with a `value` or the slot of one with grouped children |
| PrairieViewImaging.GroupedSlotWins | records/prairieview.py:198-206 | the slot holds the sub-indexed tuple when there is one, else the indexed tuple, unless a later grouped state value has the same slot |
| PrairieViewImaging.PlainValueKept | records/prairieview.py:193-206 | a plain `key -> value` survives when no later plain value and no grouped slot uses the key |
| PrairieViewImaging.Scan | records/prairieview.py:83-138 | validation ends at the first field needing a tuple; otherwise it lists exactly the fields not accepted |
| PrairieViewImaging.ValidateFieldsMeaning | records/prairieview.py:83-138 | validation succeeds exactly when every field is accepted, and then holds the accepted values; a TypeError comes from a grouped field without a tuple |
| PrairieViewImaging.GroupedAreFields | records/prairieview.py:119-132 | every field with the tuple validator is a field of `PVImagingMeta` |
| PrairieViewImaging.ValidateImagingMeaning | records/prairieview.py:83-117 | `PVImagingMeta(**pv_meta)` succeeds exactly when each field's alias is present with a value of the right kind, and each field then holds it |
| PrairieViewImaging.NumericalApertureAlias | records/prairieview.py:99-100 | the numerical aperture is read from `objectiveLensNA` |
| PrairieViewImaging.PlainGroupedFieldFails | records/prairieview.py:119-138 | a grouped field given plain text always fails validation; a TypeError names a grouped field |
| PrairieViewImaging.GetImagingMeta | records/prairieview.py:191-207 | the method computes the imaging section function |
| PrairieViewImaging.ImagingNoneWhenEmpty | records/prairieview.py:207 | the result is None exactly when no state value has a `value` or grouped children |
| PrairieViewSections.SessionMetaMeaning | records/prairieview.py:175-176 | the session validates exactly when `version` and `date` are present and then carries them and the optional `notes`; otherwise the error lists each missing field |
| PrairieViewSections.SessionIgnoresTheRest | records/prairieview.py:71-75 | only `version`, `date` and `notes` affect the session |
| PrairieViewSections.SystemIdEntries | records/prairieview.py:180-187 | the dictionary always holds the `SystemIDs` element's own entry |
| PrairieViewSections.ValidateSystemId | records/prairieview.py:78-80 | `PVSystemID` validates exactly when `SystemIDs` maps to a string, and takes it as the serial id |
| PrairieViewSections.GetSystemId | records/prairieview.py:179-188 | the `update` loop computes the system identifier function |
| PrairieViewSections.SerialIsOwnAttribute | records/prairieview.py:179-188 | the serial id is the `SystemID` attribute of the `SystemIDs` element; a missing element is an error |
| PrairieViewSections.ChildrenUnderSystemID | records/prairieview.py:182-187 | the children's values go under `SystemID`, present exactly when such a child exists, with the last child's value |
| PrairieViewSections.Rows | records/prairieview.py:215-220 | one row per child, each that child's row, or the first child's failure |
| PrairieViewSections.Stack | records/prairieview.py:215-226 | stacking succeeds exactly on a non-empty list of rows of equal length and keeps them |
| PrairieViewSections.SequenceMetaShape | records/prairieview.py:210-232 | the counts come from the first frame; both matrices are rectangular with row i collected from child i |
| PrairieViewSections.RaggedRowsFail | records/prairieview.py:215-220 | ragged or missing rows make the section fail with a shape error |
| PrairieViewSections.FramelessChildEmptyRow | records/prairieview.py:63-68 | a child without `Frame` children gives an empty row |
| PrairieViewSections.FramelessSequenceEmptyRows | records/prairieview.py:215-226 | when the frames have no `Frame` children, every row of both matrices is empty |
| PrairieViewSections.ChannelCountsAgree | records/prairieview.py:235-237 | both readers give the same channel count, and this one fails for want of frames exactly when the sequence reader does |
| PrairieViewSections.LoadEverything | records/prairieview.py:283-289 | with no section named, the result succeeds exactly when all four sections do, holds them, and otherwise fails with the error of the first failing section in the order session, system id, imaging, sequence |
| PrairieViewSections.LoadOneSection | records/prairieview.py:274-282 | a named section is read alone: the result is that section's value, or its error |
| PrairieViewPlanes.Index | records/prairieview.py:252 | indexing succeeds exactly on an array and an index within it |
| PrairieViewPlanes.PlaneFieldsUpTo | records/prairieview.py:253-262 | the fields read are exactly the named ones, each the value at `[0][0][0][k][0][0]`, present exactly when each path exists |
| PrairieViewPlanes.PlanesUpTo | records/prairieview.py:251-262 | planes `0..n` as keys, each with its fields, or the first plane lacking a field |
| PrairieViewPlanes.LoadPlaneMetadata | records/prairieview.py:240-263 | the whole load computes the plane metadata function, failing without a plane when there is no container array |
| PrairieViewPlanes.LoadPlanes | records/prairieview.py:251-263 | the loop over the planes builds exactly the dictionary of planes `0..n`, or stops at the first plane lacking a field |
| PrairieViewPlanes.PlanesFailAfter | records/prairieview.py:251-263 | once a plane fails, reading further planes keeps that failure |
| PrairieViewPlanes.PlaneMetadataMeaning | records/prairieview.py:247-263 | the keys are the plane numbers, with the eight values at their paths; a missing container or field is an error |
| Markup.RetypeMeaning | records/templates.py:127-132 | a segment mentioning "time" has its text inputs made time inputs; else "date" or "dob" makes them date inputs; any other segment is kept |
| Markup.SegmentsRetyped | records/templates.py:125-133 | the result cut at `<tr>` is exactly the retyped segments of the input |
| Markup.ValueTypedNoTextInputs | records/templates.py:125-133 | a rendering without a text input is unchanged |
| Markup.ValueTypedIdempotent | records/templates.py:125-133 | retyping twice is retyping once |
| Markup.SetHtmlValueTypes | records/templates.py:125-133 | the loop over the `<tr>` segments computes the retyping function (the identical copy at records/filters.py lines 24-33 is the same member) |
| Markup.LastDotIsLast | records/templates.py:140 | the found position holds the last dot; none is found only without a dot |
| Markup.StemMeaning | records/templates.py:140 | the stem is the name cut just before its last dot when that dot is neither first nor last, and the whole name otherwise |
| Markup.RenderedListLines | records/templates.py:136-144 | a list renders to an empty line, then per link its heading and its embedding (what the link renders to alone), then an empty line |
| Markup.EntriesAppend | records/templates.py:139-143 | rendering two runs of links is rendering each in turn |
| Markup.RenderLinks | records/templates.py:136-144 | the loop computes the link rendering function; an argument without a name is an error (the identical copy at records/filters.py lines 43-53 is the same member) |
| Tables.TableRegistry.Register | records/tables.py:35-49 | the table goes under a truthy alias and then under its class name, other keys keep their tables, each new key is appended to the order, and the table is returned |
| Tables.TableRegistry.Get | records/tables.py:52-59 | a table is found exactly for a registered key |
| Tables.TableRegistry.Tables | records/tables.py:62-68 | every registered name and alias, each once |
| Tables.CollectTables | records/tables.py:71-78 | one lookup per listed table in order, none when no tables are listed, None for an unknown name |
| Tables.Format06d | records/tables.py:104-105 | the formatted number has at least six characters |
| Tables.ValidateCage | records/tables.py:101-112 | the loop pads as the cage function does: an int is formatted, a string is zero-padded, and only digits are accepted |
| Tables.CageStringPadding | records/tables.py:106-112 | a string is accepted exactly when it is all digits, and is then left-padded with zeros to at least six characters |
| Tables.CageIntRoundTrip | records/tables.py:104-112 | a non-negative int is accepted, as the digits of the same number in at least six characters |
| Tables.CageNegativeRejected | records/tables.py:104-112 | a negative int is rejected |
| Tables.FindOptimalGrid | records/tables.py:270-279 | sixteen rows and the fewest columns that hold every field |
| Tables.MakeFieldsContainer | records/tables.py:317-328 | the same fields in order; `title` keeps its field; the others get the factory's value, else "N/A" without a default, else the default |
| Templates.Overwrite | records/templates.py:56 | writing from the start of a file opened "r+" keeps what lay beyond the new text |
| Templates.PiecesJoin | records/templates.py:57-64 | the entries written so far are joined by commas, followed by a comma, or a newline after the last |
| Templates.SavedTextLayout | records/templates.py:50-66 | the saved text is `{`, the entries joined by commas on their own lines, and `}` |
| Templates.TemplateRegistry.Get | records/templates.py:90-98 | a template is found exactly for a registered key; otherwise KeyError |
| Templates.TemplateRegistry.Register | records/templates.py:100-105 | a taken key raises and changes nothing; otherwise the template goes last and the registry is marked changed |
| Templates.TemplateRegistry.Save | records/templates.py:50-66 | the file becomes the saved text over the old contents, and the mark is cleared |
| Templates.TemplateRegistry.Exit | records/templates.py:112-115 | the registry is saved exactly when it was marked changed |
| Filters.FilterRegistry.Register | records/filters.py:12-18 | the function is stored under the name, replacing an earlier one in its place, and returned |
| Filters.FilterRegistry.GetFilters | records/filters.py:20-22 | every name with its filter, once each, in registration order |
| Filters.AddFilters | records/filters.py:92-101 | the environment's filters become its old filters overridden by every registered one |
| Filters.SplitToList | records/filters.py:87-89 | at least one line, none with a newline, and joining them gives the string back |
| Text.SplitJoin | records/templates.py:126-133 | joining the parts of a split with the separator gives the string back |
| Text.ReplaceIsSplitJoin | records/templates.py:129 | replacing is splitting at the pattern and joining with the replacement |
| Text.DecimalRoundTrip | records/tables.py:105 | the decimal digits of a number read back as that number |

## Left out

- Parsing the files is not modelled. `ET.parse`, `loadmat` and the `scan_data`/`planes` lookups of the MAT file are replaced by the element tree and the nested arrays they produce.
- PrairieViewNames.ParseValue: Python's `float(str)` is a parameter, so NaN, infinities and the exact grammar of numbers are not modelled.
- PrairieViewNames.SnakeAlias: pydantic's `to_snake` and `to_camel` are parameters. Only the space-to-underscore step is modelled.
- PrairieViewImaging.ValidateImagingMeaning: pydantic's coercion of scalar fields to int, float and bool is not modelled. Scalar fields keep the attribute text; only the tuple validator and missing fields decide validity.
- PrairieViewNames.Renamed: `str.isidentifier` is a parameter, so which Unicode names count as identifiers is not modelled.
- PrairieViewSections.Stack: `np.vstack` is modelled only for what it accepts, a non-empty list of rows of equal length. Its numeric conversion is not modelled.
- Comments and processing instructions in the tree are not modelled. The elements are assumed to be elements only.
- The `field_serializer` of `PVImagingMeta` (the identity) and all JSON serialisation are not modelled. The template entry text (`json.dumps`, `model_dump_json`, `indent`) is a parameter of `TemplateRegistry.Save`.
- Tables.ValidateCage: a list of digit strings and a `bool` (an `int` in Python) passed as the cage are not modelled. Only an int, a string or any other value are distinguished, and `isdigit` is ASCII-only.
- Tables.FindOptimalGrid: `math.ceil(num_fields / 16)` is modelled on exact integers. The rounding of the float division for very large counts is not modelled.
- The table models' defaults, the datetime default factories and the `ImagingFOV`/`ImagingRoadmap` validators are not modelled; they read files and the clock.
- The Tk dialog (`initialize_fields`, `submit_entries` and the other GUI functions of `records/tables.py`) is not modelled.
- `RecordsTemplateRegistry._load` and `__enter__` are not modelled: they parse JSON. The registry starts empty over a given file, so it only holds registered templates.
- A registry file missing when it is opened in "r+" mode (FileNotFoundError) is not modelled. Successive writes are modelled as one write of their concatenation.
- The class-level dictionaries of the three registries are modelled as one object each.
- `render` and `render_table` in `records/templates.py`, and `render_table` and the `special_*` filters in `records/filters.py`, are not modelled: they render Jinja templates, open file dialogs and load MAT files.
- Filter functions are identified by their name; calling them is not modelled.
- `Path.name` is taken as given. Only `Path.stem` is derived from it.
- `records/misc.py`, `records/records.py` and `records/extensions.py` are not part of this model.
