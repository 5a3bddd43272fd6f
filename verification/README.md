# Lighting scheduler core, modelled in Dafny

This project models the domain core of a Rails application that drives an
addressable-LED lighting controller over a WebSocket. The core covers five things:

- **Cache refresh.** The zone and pattern caches are refreshed from the controller's
  reports (`Zone.update_cached`, `Pattern.update_cached`). Both upsert by key and
  then sweep away every row not touched.
- **Zone references.** References to zones are resolved to the names of current
  zones (`ZoneHelper#parameterize_zones`). The `runPattern` messages that turn zones
  off and run patterns are built from those names.
- **Zone sets.** A zone set holds snapshots of the current zones. It has a single
  default and a case-insensitively unique name, and activating it pushes its stored
  configuration to the controller.
- **Zone builder.** `ZoneBuilder` assembles a zone's port map segment by segment.
- **Displays and tags.** A display pattern's `zones` column is normalised. A display
  runs its patterns in stored order and has an `active` scope and name validations.
  A tag activates one of its displays at random.

How the pieces are represented:

- **Tables.** A database table is a sequence of rows in ascending primary-key order,
  so `.first` is the first matching row.
- **Cache sync.** One generic upsert-then-sweep algorithm (`Catalog.Sync`) serves
  both caches. Its properties are proved once.
- **Controller traffic.** A message to the controller is a returned `Command` value,
  and the controller's reply is an input. A `None` reply stands for the `nil` that
  makes the Ruby code raise.
- **External computations.** `YAML.load` and the SHA-1 name-based UUID digest
  (section 4.3 of RFC 4122) are function parameters.
- **Shuffle.** The shuffle is a nondeterministic choice: the caller supplies the
  order it produced, which can be any permutation.

## Behaviour of the code worth knowing

Each item below follows from the code as written, and the model keeps it:

- **Zones are matched by name, not by fingerprint.** Renaming a zone on the
  controller destroys its row and creates a new one (`Zones.RenameReplacesZone`).
- **The sweep covers every zone, zone-set snapshots included.** A snapshot that
  shares a reported name is destroyed by the next refresh
  (`Zones.SnapshotLostOnRefresh`).
- **`:all` gives duplicates.** `:all` reads the names of every zone, snapshots
  included, so a name can appear twice (`ZoneHelper.AllRepeatsSharedNames`).
- **`:default` resolves to nothing.** The symbol `:default` is neither an Integer, a
  Zone nor a String (`ZoneHelper.QueryFor`).
- **A pattern refresh can break a display.** Nothing stops `display_patterns.pattern_id`
  from pointing at a pattern that `Pattern.update_cached` has destroyed. The next
  `Display#activate` then calls `activate` on nil and raises at that pairing
  (`Displays.RefreshDroppingPatternFails`).
- **A builder's later `save!` updates its own zone.** `@zone` is created once, so
  saving again after more `add` calls rewrites the same row
  (`ZoneBuilder.SaveAgainUpdates`).
- **`Display#activate` only runs its patterns.** It performs no turn-off step and
  pushes no zone set.
- **`Pattern#activate` builds its `runPattern` message but sends nothing.** The send
  is commented out at `app/models/pattern.rb:26`. The model returns the message
  built.
- **`ensure_zones_is_array` can leave a non-array.** A YAML document that parses to a
  scalar stays a scalar, and a second pass then wraps it, so the hook is not
  idempotent on such input (`DisplayPatterns.ScalarYamlNotIdempotent`).
- **`ZoneSet.create_from_current` copies zones even when the set is invalid.** With an
  invalid name, the copies still go into the zones table. Their `zone_set_id` is nil,
  so they are new current zones, and the `reload` of the unsaved set raises
  (`ZoneSets.RepeatedSnapshotFails`).

`Zone.current` is not part of this model's source files. It is taken to mean "zones
with no zone set".

## Model

| member | source | states |
|---|---|---|
| Ruby.ArrayWrap | app/models/concerns/zone_helper.rb:8 | nil becomes [], an array stays itself, any other value x becomes [x] |
| Ruby.HashFromPairsSpec | app/models/zone_set.rb:31-34 | a Hash filled key by key has distinct keys in first-occurrence order, and each key holds the value of its last assignment |
| Ruby.LastValueForPresent | app/models/zone_set.rb:32-34 | a key has a last assigned value exactly when some assignment uses it |
| Catalog.FirstWithKey | app/models/zone.rb:8 | `where(key).first` finds the first row with the key, or nothing exactly when no row has it |
| Catalog.UpsertSaves | app/models/zone.rb:8-11 | one `first_or_initialize`/`save`: the table grows exactly when the key had no row; the saved row has the key and the new value under the id `updated` collects; every row keeps its id, key and other columns, rows of other keys are untouched, and a created row gets a fresh id and the initial columns |
| Catalog.UpsertAllShape | app/models/zone.rb:7-12 | after the loop, ids ascend; the first old row of each reported key holds the key's last value and every other old row is untouched; new rows exist only for reported keys that had none, with initial columns; every reported key has a row; the collected ids are exactly the ids of the rows found or created |
| Catalog.Sweep | app/models/zone.rb:13 | `where.not(id: updated).destroy_all` keeps exactly the rows whose id was touched, in order |
| Catalog.SyncOneRowPerKey | app/models/zone.rb:4-14 | after upsert-then-sweep, ids stay ascending, keys are unique, each row holds the last reported value for its key, and every reported key has a row |
| Catalog.SyncKeepsIdentity | app/models/zone.rb:8-13 | the first row for a reported key survives with only its value changed; every surviving old row was first for its key; new rows carry fresh columns and a key that was absent before |
| Catalog.SyncIdempotent | app/models/zone.rb:4-14 | syncing the same report twice equals syncing it once |
| Catalog.SweepKeepsAll | app/models/zone.rb:13 | when every row was touched the sweep destroys nothing |
| ZoneTable.FirstCurrentMatch | app/models/concerns/zone_helper.rb:12-19 | a `Zone.current.find_by_*` lookup finds a current zone that matches (the lowest-id one in the model), and none exactly when no current zone matches |
| ZoneTable.FindCurrent | app/models/concerns/zone_helper.rb:12-19 | the zone found is a current zone of the table satisfying the lookup; nil exactly when there is none |
| ZoneTable.FindOwnId | app/models/concerns/zone_helper.rb:14 | looking a current zone up by its own id finds that zone |
| ZoneTable.ZonesWhere | app/models/zone_set.rb:32 | `where(zone_set_id:)` keeps exactly the zones of that set (listed in id order in the model) |
| ZoneTable.ZonesWhereAppend | app/lib/zone_builder.rb:4-12 | a zone saved at the end of the table comes after every older zone of its set, so `Zone.current.first` stays the oldest current zone |
| ZoneHelper.QueryFor | app/models/concerns/zone_helper.rb:11-21 | Integers and Zones are looked up by id; Strings by uuid exactly when they are 36 characters in five dash-separated fields, else by name; anything else resolves to nil |
| ZoneHelper.ResolveOne | app/models/concerns/zone_helper.rb:10-22 | an entry resolves exactly when its lookup applies and some current zone matches it, and then yields the name of such a zone |
| ZoneHelper.Entries | app/models/concerns/zone_helper.rb:5-9 | `:all` becomes every zone's name in table order; any other argument is `Array.wrap`ped |
| ZoneHelper.ParameterizeZones | app/models/concerns/zone_helper.rb:4-25 | at most one name per entry, and only names of current zones |
| ZoneHelper.ParameterizeZonesAppend | app/models/concerns/zone_helper.rb:10-24 | resolution keeps the entries' order and duplicates: resolving a + b is resolving a then b |
| ZoneHelper.ParameterizeZonesMembers | app/models/concerns/zone_helper.rb:10-24 | a name is in the result exactly when some entry resolves to it |
| ZoneHelper.ParameterizeZonesExactly | app/models/concerns/zone_helper.rb:10-24 | the same, for every name at once |
| ZoneHelper.FilterMapIsResolveAll | app/models/concerns/zone_helper.rb:10-24 | the `map` then `- [nil]` equals walking the entries front to back and keeping each resolved name |
| ZoneHelper.ParameterizeZonesInOrder | app/models/concerns/zone_helper.rb:4-25 | the result lists the resolved names in the order of their entries, one per resolving entry |
| ZoneHelper.AllIsCurrentNames | app/models/concerns/zone_helper.rb:5-6 | with `:all`, a name is in the result exactly when it names a current zone (no zone named like a uuid) |
| ZoneHelper.AllRepeatsSharedNames | app/models/concerns/zone_helper.rb:5-6 | a snapshot sharing a current zone's name makes `:all` yield that name twice |
| ZoneHelper.UuidShapedNameUnreachable | app/models/concerns/zone_helper.rb:16-17 | a uuid-shaped string is looked up only by uuid, so a zone merely named like it is not found |
| ZoneHelper.CanonicalUuidIsUuidShaped | app/models/concerns/zone_helper.rb:16 | every 8-4-4-4-12 uuid string passes the uuid shape test |
| ZoneHelper.TurnOff | app/models/concerns/zone_helper.rb:27-30 | builds a `runPattern` message with state 0 and empty file, data and id, whose `zoneName` holds exactly the names the entries resolve to, in entry order, all of current zones |
| ZoneHelper.TurnOffAppend | app/models/concerns/zone_helper.rb:27-30 | turning off a + b targets a's names, then b's |
| ZoneHelper.TurnOffAll | app/models/concerns/zone_helper.rb:41-43 | turning off `:all` names exactly the current zones (no zone named like a uuid) |
| ZoneHelper.UuidFromJsonAgrees | app/models/concerns/zone_helper.rb:45-47 | the uuid of a reported zone equals the uuid of any zone with the same pixel count and port map, both hashed in the same key order |
| ZoneHelper.UuidLookupFindsZone | app/models/concerns/zone_helper.rb:16-17 | a current zone storing the uuid of its own attributes is found through the uuid of a report with the same pixel count and port map |
| ZoneHelper.UuidIgnoresIdentity | app/models/concerns/zone_helper.rb:32-38 | the uuid depends only on pixel count and port map, not on name, id or zone set |
| Zones.PixelCountsLast | app/models/zone.rb:7-8 | the pixel count written for a name is the `numPixels` of its last report |
| Zones.UpdateCached | app/models/zone.rb:4-14 | sends the zones request; a nil reply raises; otherwise ids ascend, names are unique, each zone holds its last reported pixel count, and every reported name has a zone |
| Zones.UpdateCachedKeepsIdentity | app/models/zone.rb:7-12 | the first zone of a reported name keeps its id and columns with the new pixel count; surviving zones keep their name and columns; new zones are current and unconfigured |
| Zones.UpdateCachedDestroys | app/models/zone.rb:13 | a zone that is not first for its name, or whose name is not reported, is destroyed |
| Zones.SnapshotLostOnRefresh | app/models/zone.rb:7-13 | a zone-set snapshot named like a reported current zone is destroyed |
| Zones.RenameReplacesZone | app/models/zone.rb:7-13 | a zone reported under a new name is replaced by a fresh unconfigured zone with a new id |
| Zones.UpdateCachedIdempotent | app/models/zone.rb:4-14 | refreshing twice from the same report changes nothing the second time |
| Zones.DefaultTarget | app/models/zone.rb:17 | `zones ||= self`: a nil or false argument means the zone itself, anything else is kept |
| Zones.TurnOff | app/models/zone.rb:16-19 | with an argument, turns off what the helper would; without, turns off just this zone when it is current and nothing when it is a snapshot |
| Patterns.UpsertedLast | app/models/pattern.rb:8-10 | skipping blank names leaves the last `custom` of every other key unchanged and never writes a blank-named key |
| Patterns.UpdateCached | app/models/pattern.rb:4-15 | sends the file-list request; a nil reply raises; otherwise ids ascend, keys are unique, no name is blank, each `custom` is the negated `readOnly` of the key's last entry, and every non-blank entry has a pattern |
| Patterns.UpdateCachedKeepsIdentity | app/models/pattern.rb:9-14 | the first pattern of a reported key keeps its id with the new `custom`; survivors keep their key; new patterns have keys absent before |
| Patterns.UpdateCachedDropsUnreported | app/models/pattern.rb:7-14 | a pattern whose (name, folder) is not reported, or whose name is blank, is destroyed: no row keeps its id |
| Patterns.UpdateCachedIdempotent | app/models/pattern.rb:4-15 | refreshing twice from the same list changes nothing the second time |
| Patterns.FullPathFields | app/models/pattern.rb:29-31 | the path is the name alone without a folder, else the folder followed by the name's `/`-separated fields |
| Patterns.FullPathInjective | app/models/pattern.rb:29-31 | distinct (folder, name) pairs with slash-free folders give distinct paths |
| Patterns.Activate | app/models/pattern.rb:17-27 | nothing exactly when no entry resolves; otherwise a `runPattern` with state 1, the pattern's path, empty data and id, and as `zoneName` exactly the names the entries resolve to, in entry order |
| Validation.CaseVariantsCollide | app/models/zone_set.rb:16 | names differing only in ASCII letter case count as the same for uniqueness |
| ZoneSets.OtherNames | app/models/zone_set.rb:16 | the names the uniqueness check compares against are exactly those of the other sets |
| ZoneSets.Default | app/models/zone_set.rb:18-20 | the first set flagged default, and nil exactly when none is |
| ZoneSets.Save | app/models/zone_set.rb:16 | saving fails exactly when the name is blank or taken ignoring case; a saved set holds the given name and flag, and an update keeps its id |
| ZoneSets.ClearLeavesOneDefault | app/models/zone_set.rb:40-43 | after the `after_save` hook at most one set is default, and ids still ascend |
| ZoneSets.SaveKeepsOneDefault | app/models/zone_set.rb:40-43 | saving keeps at most one default; saving a default changes every other set only by clearing its flag; saving a non-default leaves other sets untouched |
| ZoneSets.SavedDefaultIsDefault | app/models/zone_set.rb:18-20 | after saving a default set (the hook at lines 40-43 clears the others), `ZoneSet.default` returns it |
| ZoneSets.SaveKeepsNamesDistinct | app/models/zone_set.rb:16 | saving keeps all set names distinct ignoring case |
| ZoneSets.CreateFromCurrent | app/models/zone_set.rb:22-28 | the set is created exactly when its save succeeds; existing zones are untouched; one copy of each current zone is appended, tied to the new set or, when the save failed, to no set |
| ZoneSets.CreateFromCurrentKeepsZones | app/models/zone_set.rb:24-26 | snapshotting never changes an existing zone |
| ZoneSets.CreateFromCurrentFillsSet | app/models/zone_set.rb:22-28 | a new set holds exactly one copy per current zone |
| ZoneSets.SaveMessage | app/models/zone_set.rb:31-35 | the pushed Hash has distinct names, one per zone name of the set, each holding the last such zone's pixel count and port map |
| ZoneSets.Activate | app/models/zone_set.rb:30-37 | pushes the set's zones, then refreshes the zone cache, whose outcome it returns |
| ZoneSets.RepeatedSnapshotFails | app/models/zone_set.rb:22-28 | a second snapshot under a taken name fails, leaves the sets unchanged and adds current copies of the zones |
| ZoneBuilder.RgbCount | app/lib/zone_builder.rb:23-27 | the count is at least one light per segment and at least the length of each segment |
| ZoneBuilder.RgbCountAppend | app/lib/zone_builder.rb:23-27 | adding a segment adds its length to the pixel count |
| ZoneBuilder.New | app/lib/zone_builder.rb:2-7 | succeeds exactly when the lowest-id current zone has a first segment with a non-blank controller name, and then starts empty with that name; a missing zone or segment raises `NoMethodError`, a blank name the builder's own error |
| ZoneBuilder.Add | app/lib/zone_builder.rb:16-20 | appends one segment on the builder's controller, indices made zero-based and swapped when reversed, starting where the previous segments end |
| ZoneBuilder.AddKeepsWellBuilt | app/lib/zone_builder.rb:16-20 | every segment stays on the builder's controller and starts at the pixel count of the segments before it |
| ZoneBuilder.NewIsWellBuilt | app/lib/zone_builder.rb:2-7 | a new builder satisfies that invariant |
| ZoneBuilder.SegmentsTile | app/lib/zone_builder.rb:19-27 | segments tile the zone: the first starts at 0, each starts where the last ended, and the last ends at the pixel count |
| ZoneBuilder.ReverseKeepsCount | app/lib/zone_builder.rb:17-18 | reversing a segment does not change the pixel count |
| ZoneBuilder.Save | app/lib/zone_builder.rb:6-13 | the first save appends a zone with a new id, the given name, the pixel count of its segments and the segments as port map, and the builder remembers that id; every later save rewrites that same row (pixel count and port map, each only when it changed since the last save), leaves the table as it was when the row is gone, and touches no other zone |
| ZoneBuilder.SaveAgainUpdates | app/lib/zone_builder.rb:6-20 | a first save, an `add` and a second save leave one zone, not two: the row the first save inserted, now holding the new pixel count and port map, with the rest of the table as before |
| ZoneBuilder.SaveKeepsController | app/lib/zone_builder.rb:4-12 | while an older current zone exists, a builder's first save does not change what the next builder reads |
| ZoneBuilder.FirstZoneProvidesController | app/lib/zone_builder.rb:4-12 | the first current zone, saved from a builder with segments, gives the next builder the same controller name |
| ZoneBuilder.SavedCountCoversSegments | app/lib/zone_builder.rb:9-13 | the pixel count a first save writes (`rgb_count`, lines 23-27) is where the last segment ends |
| DisplayPatterns.RejectBlank | app/models/display_pattern.rb:29 | no blank entry survives |
| DisplayPatterns.RejectBlankMembers | app/models/display_pattern.rb:29 | an entry survives exactly when it is present and not blank |
| DisplayPatterns.RejectBlankExactly | app/models/display_pattern.rb:29 | the same, for every entry at once |
| DisplayPatterns.RejectBlankAppend | app/models/display_pattern.rb:29 | rejection keeps order: rejecting a + b is rejecting a then b |
| DisplayPatterns.Normalize | app/models/display_pattern.rb:20-30 | anything but a YAML document ends as an array; an array result has no blank entry; an array input keeps exactly its non-blank entries |
| DisplayPatterns.NormalizeGivesArray | app/models/display_pattern.rb:20-30 | any input that is not a YAML document ends as an array of non-blank entries |
| DisplayPatterns.NormalizeWraps | app/models/display_pattern.rb:24-25 | a non-array non-document x becomes [x], or [] when x is blank |
| DisplayPatterns.NormalizeFiltersArray | app/models/display_pattern.rb:29 | an array keeps exactly its non-blank entries, in order |
| DisplayPatterns.NormalizeKeepsCleanArray | app/models/display_pattern.rb:29 | an array with no blank entry is unchanged |
| DisplayPatterns.NormalizeParsesYaml | app/models/display_pattern.rb:21-29 | a `---` string is parsed, then filtered when the result is an array |
| DisplayPatterns.NormalizeIdempotent | app/models/display_pattern.rb:20-30 | normalising an array result again changes nothing |
| DisplayPatterns.ScalarYamlNotIdempotent | app/models/display_pattern.rb:21-25 | a document parsing to a scalar stays a scalar, and a second pass wraps it |
| Displays.InitWorkflowState | app/models/display.rb:24-26 | a nil workflow state becomes 'active'; any other is kept; nothing else changes |
| Displays.InitWorkflowStateIdempotent | app/models/display.rb:24-26 | applying the default twice is applying it once |
| Displays.Create | app/models/display.rb:4-13 | the hook runs first; the display is saved exactly when its zone set exists, state and name are present and the name is free ignoring case |
| Displays.CreateDefaultsWorkflowState | app/models/display.rb:10-13 | without a workflow state, the hook (lines 24-26) fills in 'active', so the zone set and the name alone decide, and the saved display is 'active' |
| Displays.MissingZoneSetRejected | app/models/display.rb:4 | `belongs_to :zone_set` is required: a display with no zone set, or one naming a set that is not stored, is rejected |
| Displays.BlankWorkflowStateRejected | app/models/display.rb:25 | a blank workflow state is kept by `||=` and fails presence |
| Displays.CreateKeepsNamesDistinct | app/models/display.rb:13 | display names stay distinct ignoring case |
| Displays.CaseVariantNameRejected | app/models/display.rb:13 | a name differing from a stored one only in case is rejected |
| Displays.Active | app/models/display.rb:15 | the scope holds exactly the displays whose state is 'active', in table order |
| Displays.ActiveAppend | app/models/display.rb:15 | the scope is a filter that keeps table order |
| Displays.CreatedIsActive | app/models/display.rb:15 | a display created without a state (defaulted by lines 24-26) is in the scope |
| Displays.Run | app/models/display.rb:19 | one pairing's call: `NoMethodError` exactly when its pattern row is gone; otherwise the stored pattern with that id, given the stored zones unchanged, building a state-1 message, or nothing exactly when the zones resolve to no zone |
| Displays.Activate | app/models/display.rb:17-21 | one pattern activation per pairing, in stored order, with the stored zones, stopped by `NoMethodError` at the first pairing whose pattern row is gone; it completes exactly when every paired pattern exists; every message built runs a pattern (state 1) |
| Displays.RunAllRuns | app/models/display.rb:18-20 | the calls the `each` loop made are, in order, the completed calls of the first pairings |
| Displays.RunAllCompletes | app/models/display.rb:18-20 | the loop completes exactly when every paired pattern is stored, and then makes one call per pairing |
| Displays.RunAllRaises | app/models/display.rb:18-20 | when the loop raises `NoMethodError`, it stopped at the first pairing whose pattern is gone |
| Displays.RunAllAppend | app/models/display.rb:18-20 | the loop over a + b is the loop over a, then over b only when nothing in a raised |
| Displays.ActivateAppend | app/models/display.rb:18-20 | activating pairings a + b is activating a, then b only when nothing in a raised |
| Displays.EmptyZonesBuildNothing | app/models/display.rb:19 | a pairing with an empty zones array is reached when every earlier pattern exists, is then called with [], and builds nothing |
| Displays.MessagesRunPatterns | app/models/display.rb:17-21 | every message built is a state-1 `runPattern` built by the stored pattern of some pairing |
| Displays.FindPattern | app/models/display_pattern.rb:3 | a pairing's pattern is the stored pattern with its `pattern_id`, and nil exactly when no stored pattern has that id |
| Displays.RefreshDroppingPatternFails | app/models/pattern.rb:14 | a pattern refresh that no longer reports a paired pattern destroys it, so the display's next `activate` raises `NoMethodError` (display.rb:19) |
| Displays.ActivateAppendMessages | app/models/display.rb:18-20 | the messages of a + b are a's, followed by b's only when nothing in a raised |
| Tags.ActivateRandomDisplay | app/models/tag.rb:7-9 | nothing without displays; otherwise exactly one display, a member of the tag's, is activated, with whatever its activation raised |
| Tags.AnyDisplayCanBeChosen | app/models/tag.rb:8 | every display of the tag is chosen by some shuffle |
| Tags.ShuffledFirstActivated | app/models/tag.rb:8 | a non-empty shuffle activates its first display |
| Tags.Create | app/models/tag.rb:5 | a tag is saved exactly when its name is present |
| Tags.SharedNamesAllowed | app/models/tag.rb:5 | a tag repeating a stored name, even up to case, is saved |
| Tags.BlankNameRejected | app/models/tag.rb:5 | a nil, empty or whitespace-only name is rejected |

## Left out

- The WebSocket transport (`WebsocketMessageHandler`): connection handling, timeouts and JSON (de)serialisation. Replies are inputs and sends are returned values.
- The internals of `YAML.load` and of `Digest::UUID.uuid_from_hash` (SHA-1): both are uninterpreted function parameters, so uuid distinctness is not claimed.
- `Pattern#pattern_data`: a cached controller read with no domain logic.
- `Tag#activate_random`, `activate_random_pattern` and their sleeps, and the `:default` zone reference: they appear only in the tests, not in the modelled code.
- Persistence failures: `save` is taken to succeed, except for the validations modelled.
- `puts` and the debug logging: no observable effect on the model.
- Case folding beyond ASCII: the uniqueness checks compare names through the database's `LOWER()`, which also folds non-ASCII letters; `Ruby.Downcase` folds `A`..`Z` only.
- A segment whose `ctlrName` is missing is modelled as the empty string, which is blank, as nil would be.
- A zone or pattern row with a nil name: zone names are strings in the model.
- Zones.UpdateCached: requires the table's ids to be ascending, the order a primary key keeps, rather than handling arbitrary row orders.
- Patterns.UpdateCached: requires ascending ids, for the same reason.
- DisplayPatterns.NormalizeIdempotent: proved only when the first pass yields an array, because a scalar YAML result is not idempotent (`DisplayPatterns.ScalarYamlNotIdempotent`).
- ZoneHelper.AllIsCurrentNames: holds only when no zone is named like a uuid, because such a name is looked up by uuid.
- ZoneHelper.TurnOffAll: states the exact name set only under the same no-uuid-shaped-names condition.
- DisplayPatterns.Normalize: the `zones` value may be a Symbol or a zone record, but the jsonb column casts those to a String or a Hash on assignment, before the hook runs; the model does not apply that cast, so its results for those two kinds of value describe values the column never holds. The same holds for `Displays.Run`.
- ZoneBuilder.SaveKeepsController: stated for a builder's first `save!`; a later save rewrites the builder's own row, which may be the first current zone.
- ZoneBuilder.FirstZoneProvidesController: stated for a builder's first `save!`, the one that inserts the zone.
- ZoneBuilder.SavedCountCoversSegments: stated for a builder's first `save!`; a later save leaves `pixel_count` alone when the count has not changed since the previous save, even if another writer changed the row.
- ZoneTable.FirstCurrentMatch: `find_by` has no `ORDER BY`, so the database may return any matching current zone; the model picks the lowest id.
- ZoneTable.ZonesWhere: `where`, `each` and `pluck` have no `ORDER BY`; the model lists rows in id order. `.first` (`ZoneBuilder.New`, `ZoneSets.Default`) does order by primary key.
- ZoneHelper.UuidFromJsonAgrees: the digest input is a record of pixel count and port map, so Hash key order inside the port map is not modelled. The `jsonb` column can store the keys in another order than the controller reports them, and `to_json` then hashes a different string.
- Catalog.NextId: the new id is one more than the largest stored id, so the id of a destroyed newest row can come back; a database sequence never reuses an id. `ZoneSets.NextSetId` does the same.
- Numeric-string zone ids (`"12"`): the code looks any non-uuid string up by name, and the model does the same.
