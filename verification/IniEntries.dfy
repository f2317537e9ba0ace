/** What a data source saves to and loads from its section of the ODBC INI. */
module IniEntries {
  import opened Text
  import opened DataSources

  /** The entries of one section, and the sections by data source name. */
  type Section = map<string, string>
  type Sections = map<string, Section>

  /** The longest value that the buffer of a load holds. */
  const MAX_PROPERTY_VALUE: nat := 1000

  function SectionOf(sections: Sections, name: string): Section {
    if CText(name) in sections then sections[CText(name)] else map[]
  }

  /** What loading makes of a stored text. */
  function Fetched(text: string): string {
    CText(if |text| > MAX_PROPERTY_VALUE then text[..MAX_PROPERTY_VALUE] else text)
  }

  function EntryOr(section: Section, entry: string, defaultValue: string): string {
    Fetched(if entry in section then section[entry] else defaultValue)
  }

  /** The settings with an entry: all but the driver and the name. */
  predicate HasEntry(key: Key) {
    key != OfText(Driver) && key != OfText(Dsn)
  }

  const ENTRIES: set<Key> := set key | key in ALL_KEYS && HasEntry(key)

  // ---- Loading

  /** A text is loaded only over an empty one, a flag always. */
  function MergedText(text: string, entry: string, section: Section): string {
    if text == "" then EntryOr(section, entry, "") else text
  }

  function MergedFlag(defaultOn: bool, entry: string, section: Section): bool {
    StringToBool(EntryOr(section, entry, BoolToString(defaultOn)))
  }

  function MergedValue(key: Key, value: Value, section: Section): (merged: Value)
    requires value.Flag? == IsFlag(key)
    ensures merged.Flag? == IsFlag(key)
  {
    match value
    case Text(text) => Text(MergedText(text, KeyName(key), section))
    case Flag(_) => Flag(MergedFlag(Default(key).on, KeyName(key), section))
  }

  function MergeOne(d: Settings, section: Section, key: Key): Settings {
    d[key := MergedValue(key, d[key], section)]
  }

  /** The settings once those in `keys` are loaded. */
  function Merged(d: Settings, section: Section, keys: set<Key>): Settings {
    assert forall k: Key :: k in ALL_KEYS by {
      forall k: Key ensures k in ALL_KEYS {
        AllKeys(k);
      }
    }
    map key | key in ALL_KEYS :: if key in keys then MergedValue(key, d[key], section) else d[key]
  }

  lemma MergedTwice(key: Key, value: Value, section: Section)
    requires value.Flag? == IsFlag(key)
    ensures MergedValue(key, MergedValue(key, value, section), section) == MergedValue(key, value, section)
  {
  }

  /** Without a name there is no section to load from. */
  function Loaded(d: Settings, section: Section): Settings {
    if d[OfText(Dsn)].text == "" then d else Merged(d, section, ENTRIES)
  }

  // ---- Saving

  function SavedText(value: Value): string {
    match value
    case Text(text) => text
    case Flag(on) => BoolToString(on)
  }

  /** An empty text is not written, so an entry already there stays. */
  function WriteOne(section: Section, d: Settings, key: Key): Section {
    var text := SavedText(d[key]);
    if text == "" then section else section[KeyName(key) := CText(text)]
  }

  ghost predicate IsWritten(d: Settings, keys: set<Key>, name: string) {
    var key := KeyOf(name);
    key.Some? && key.value in keys && SavedText(d[key.value]) != ""
  }

  /** The section once the settings in `keys` are written over `base`. */
  ghost function Written(base: Section, d: Settings, keys: set<Key>): Section {
    map name | name in base.Keys + (set key | key in keys :: KeyName(key))
               && (name in base || IsWritten(d, keys, name)) ::
      if IsWritten(d, keys, name) then CText(SavedText(d[KeyOf(name).value])) else base[name]
  }

  lemma WrittenEntry(base: Section, d: Settings, keys: set<Key>, name: string)
    ensures name in Written(base, d, keys) <==> name in base || IsWritten(d, keys, name)
    ensures name in Written(base, d, keys) ==>
            Written(base, d, keys)[name] ==
            if IsWritten(d, keys, name) then CText(SavedText(d[KeyOf(name).value])) else base[name]
  {
  }

  lemma WrittenByOne(d: Settings, keys: set<Key>, key: Key, name: string)
    ensures IsWritten(d, keys + {key}, name) <==>
            IsWritten(d, keys, name) || (name == KeyName(key) && SavedText(d[key]) != "")
  {
    KeyOfName(key);
  }

  /** The order of writing does not matter. */
  lemma WriteOneMore(base: Section, d: Settings, keys: set<Key>, key: Key)
    ensures WriteOne(Written(base, d, keys), d, key) == Written(base, d, keys + {key})
  {
    var left, right := WriteOne(Written(base, d, keys), d, key), Written(base, d, keys + {key});
    KeyOfName(key);
    forall name ensures name in left <==> name in right
                ensures name in left && name in right ==> left[name] == right[name] {
      WrittenEntry(base, d, keys, name);
      WrittenEntry(base, d, keys + {key}, name);
      WrittenByOne(d, keys, key, name);
    }
  }

  ghost function Saved(base: Section, d: Settings): Section {
    Written(base, d, ENTRIES)
  }

  /** The entry that the installer makes for the driver; no setting is stored under this name. */
  const DRIVER_ENTRY := "Driver"

  /** The section as the installer registers it: it may or may not keep one of that name. */
  function Registered(sections: Sections, name: string, driver: string, keeps: bool): Section {
    (if keeps then SectionOf(sections, name) else map[])[DRIVER_ENTRY := CText(driver)]
  }

  ghost function Created(sections: Sections, d: Settings, driver: string, keeps: bool): Sections {
    sections[CText(d[OfText(Dsn)].text) := Saved(Registered(sections, d[OfText(Dsn)].text, driver, keeps), d)]
  }

  function Removed(sections: Sections, name: string): Sections {
    sections - {CText(name)}
  }

  /** The section of `d` written in place; a name that has no section gets one, since at least
      the flags are written. */
  ghost function SavedIn(sections: Sections, d: Settings): Sections {
    sections[CText(d[OfText(Dsn)].text) := Saved(SectionOf(sections, d[OfText(Dsn)].text), d)]
  }

  /** Creating is registering and then writing in place. */
  lemma CreatedIsSaved(sections: Sections, d: Settings, driver: string, keeps: bool)
    ensures var name := d[OfText(Dsn)].text;
            SavedIn(sections[CText(name) := Registered(sections, name, driver, keeps)], d)
            == Created(sections, d, driver, keeps)
  {
  }

  // ---- Progress through the entries

  /** The settings with an entry among some keys. */
  ghost predicate Entries(done: set<Key>, keys: seq<Key>) {
    forall key :: key in done <==> HasEntry(key) && key in keys
  }

  lemma EntriesOneMore(done: set<Key>, keys: seq<Key>, key: Key)
    requires Entries(done, keys) == true
    ensures Entries(if HasEntry(key) then done + {key} else done, keys + [key]) == true
  {
  }

  lemma AllEntries(done: set<Key>, keys: seq<Key>)
    requires Entries(done, keys) == true && forall key: Key :: key in keys
    ensures done == ENTRIES
  {
    forall key ensures key in done <==> key in ENTRIES {
      AllKeys(key);
    }
  }

  /** The settings with an entry among some keys are loaded. */
  ghost predicate LoadedSoFar(before: Settings, section: Section, d: Settings, keys: seq<Key>) {
    forall key: Key :: FieldLoaded(before, section, d, keys, key)
  }

  lemma NothingLoaded(d: Settings, section: Section)
    ensures LoadedSoFar(d, section, d, []) == true
  {
  }

  /** One setting of that, for the keys done. */
  ghost predicate FieldLoaded(before: Settings, section: Section, d: Settings, keys: seq<Key>, key: Key) {
    d[key] == if HasEntry(key) && key in keys then MergedValue(key, before[key], section) else before[key]
  }

  lemma OneMoreField(before: Settings, section: Section, d: Settings, keys: seq<Key>, key: Key, field: Key)
    requires FieldLoaded(before, section, d, keys, field)
    ensures HasEntry(key) ==> FieldLoaded(before, section, MergeOne(d, section, key), keys + [key], field)
    ensures !HasEntry(key) ==> FieldLoaded(before, section, d, keys + [key], field)
  {
    if field == key {
      MergedTwice(key, before[key], section);
    } else {
      assert MergeOne(d, section, key)[field] == d[field];
      assert field in keys + [key] <==> field in keys;
    }
  }

  lemma OneMoreLoaded(before: Settings, section: Section, d: Settings, keys: seq<Key>, key: Key)
    requires LoadedSoFar(before, section, d, keys) == true
    ensures HasEntry(key) ==>
            LoadedSoFar(before, section, MergeOne(d, section, key), keys + [key]) == true
            && MergeOne(d, section, key)[OfText(Dsn)] == d[OfText(Dsn)]
    ensures !HasEntry(key) ==> LoadedSoFar(before, section, d, keys + [key]) == true
  {
    var merged := MergeOne(d, section, key);
    forall field
      ensures HasEntry(key) ==> FieldLoaded(before, section, merged, keys + [key], field)
      ensures !HasEntry(key) ==> FieldLoaded(before, section, d, keys + [key], field)
    {
      assert FieldLoaded(before, section, d, keys, field);
      OneMoreField(before, section, d, keys, key, field);
    }
  }

  lemma AllLoaded(before: Settings, section: Section, d: Settings, keys: seq<Key>)
    requires LoadedSoFar(before, section, d, keys) == true && forall key: Key :: key in keys
    ensures d == Merged(before, section, ENTRIES)
  {
    forall key ensures d[key] == Merged(before, section, ENTRIES)[key] {
      assert FieldLoaded(before, section, d, keys, key);
      AllKeys(key);
    }
    SameFields(d, Merged(before, section, ENTRIES));
  }

  // ---- Settings to connect with

  ghost predicate FieldFrom(before: Settings, sections: Sections, after: Settings, key: Key) {
    var name := before[OfText(Dsn)].text;
    after[key] == if name != "" && HasEntry(key) then MergedValue(key, before[key], SectionOf(sections, name))
                  else before[key]
  }

  /** The settings `after` are those of `before` with what is stored under their name, if any. */
  ghost predicate LoadedFrom(before: Settings, sections: Sections, after: Settings) {
    forall key: Key :: FieldFrom(before, sections, after, key)
  }

  lemma FieldOfLoad(before: Settings, sections: Sections, key: Key)
    ensures FieldFrom(before, sections, Loaded(before, SectionOf(sections, before[OfText(Dsn)].text)), key)
  {
    AllKeys(key);
  }

  lemma LoadedIsFrom(before: Settings, sections: Sections, after: Settings)
    ensures LoadedFrom(before, sections, after) <==>
            after == Loaded(before, SectionOf(sections, before[OfText(Dsn)].text))
  {
    var loaded := Loaded(before, SectionOf(sections, before[OfText(Dsn)].text));
    forall key ensures FieldFrom(before, sections, loaded, key) {
      FieldOfLoad(before, sections, key);
    }
    if LoadedFrom(before, sections, after) {
      forall key ensures after[key] == loaded[key] {
        assert FieldFrom(before, sections, after, key) && FieldFrom(before, sections, loaded, key);
      }
      SameFields(after, loaded);
    }
  }

  function WithText(d: Settings, key: Key, text: string): Settings
    requires !IsFlag(key)
  {
    d[key := Text(text)]
  }

  /** By name: what is stored under it, with the credentials given. */
  function ConnectedByName(d: Settings, sections: Sections, name: string, user: Option<string>,
                           password: Option<string>): Settings
  {
    var loaded := Loaded(WithText(d, OfText(Dsn), name), SectionOf(sections, name));
    var named := if user.Some? then WithText(loaded, OfText(Uid), user.value) else loaded;
    if password.Some? then WithText(named, OfText(Pwd), password.value) else named
  }

  ghost predicate TookName(before: Settings, after: Settings, sections: Sections, name: string, user: Option<string>,
                           password: Option<string>)
  {
    forall key: Key :: after[key] == ConnectedByName(before, sections, name, user, password)[key]
  }

  /** By connection string: what it leaves empty is loaded. `complete` tells whether a login is
      possible with the settings, and `connection` is the string that names them. */
  ghost predicate TookString(before: Settings, after: Settings, sections: Sections, text: string, complete: bool,
                             connection: string)
  {
    && LoadedFrom(Parsed(before, text), sections, after)
    && complete == Complete(after) && connection == ConnectionString(after)
  }

  /** What a login needs is there. */
  predicate Complete(d: Settings) {
    d[OfText(LoginUrl)].text != "" && d[OfText(Uid)].text != "" && d[OfText(Pwd)].text != ""
  }

  /** An entry written in the section of a name; an empty value is not written. */
  function EntryWritten(sections: Sections, name: string, entry: string, value: string): Sections {
    if value == "" then sections
    else sections[CText(name) := SectionOf(sections, name)[entry := CText(value)]]
  }

  /** The entries in `done` are written; the section need not exist before the first is. */
  ghost predicate Progress(before: Sections, sections: Sections, d: Settings, done: set<Key>) {
    var name := d[OfText(Dsn)].text;
    SectionOf(sections, name) == Written(SectionOf(before, name), d, done)
    && (sections == before || sections == before[CText(name) := SectionOf(sections, name)])
  }

  lemma NoProgress(before: Sections, d: Settings)
    ensures Progress(before, before, d, {}) == true
  {
    var base := SectionOf(before, d[OfText(Dsn)].text);
    assert Written(base, d, {}) == base;
  }

  lemma SectionOfWritten(sections: Sections, name: string, entry: string, value: string)
    ensures SectionOf(EntryWritten(sections, name, entry, value), name) ==
            if value == "" then SectionOf(sections, name) else SectionOf(sections, name)[entry := CText(value)]
  {
  }

  lemma OthersKept(before: Sections, sections: Sections, name: string, entry: string, value: string)
    requires sections == before || sections == before[CText(name) := SectionOf(sections, name)]
    ensures var after := EntryWritten(sections, name, entry, value);
            after == before || after == before[CText(name) := SectionOf(after, name)]
  {
    var after := EntryWritten(sections, name, entry, value);
    if value != "" {
      assert after == before[CText(name) := SectionOf(after, name)];
    }
  }

  lemma MoreProgress(before: Sections, sections: Sections, d: Settings, done: set<Key>, key: Key)
    requires Progress(before, sections, d, done) == true
    ensures Progress(before, EntryWritten(sections, d[OfText(Dsn)].text, KeyName(key), SavedText(d[key])), d,
                     done + {key}) == true
  {
    var name := d[OfText(Dsn)].text;
    WriteOneMore(SectionOf(before, name), d, done, key);
    SectionOfWritten(sections, name, KeyName(key), SavedText(d[key]));
    OthersKept(before, sections, name, KeyName(key), SavedText(d[key]));
  }

  lemma FlagIsWritten(base: Section, d: Settings, flag: Key)
    requires IsFlag(flag)
    ensures KeyName(flag) in Saved(base, d)
  {
    KeyOfName(flag);
    AllKeys(flag);
    WrittenEntry(base, d, ENTRIES, KeyName(flag));
  }

  lemma SavedIsNotEmpty(base: Section, d: Settings)
    ensures Saved(base, d) != map[]
  {
    FlagIsWritten(base, d, OfFlag(StandardNames));
  }

  lemma KeptSection(sections: Sections, name: string)
    requires SectionOf(sections, name) != map[]
    ensures sections[CText(name) := SectionOf(sections, name)] == sections
  {
  }

  /** At least the flags are written, so in the end there is a section. */
  lemma AllProgress(before: Sections, sections: Sections, d: Settings)
    requires Progress(before, sections, d, ENTRIES) == true
    ensures sections == SavedIn(before, d)
  {
    var name := d[OfText(Dsn)].text;
    SavedIsNotEmpty(SectionOf(before, name), d);
    KeptSection(sections, name);
  }

  // ---- Loading what was saved

  /** A text survives the C string that stores it and the buffer that loads it. */
  ghost predicate Storable(text: string) {
    |text| <= MAX_PROPERTY_VALUE && Free(text, '\0')
  }

  lemma FetchedOfStored(text: string)
    ensures Fetched(CText(text)) == text <==> Storable(text)
  {
    CTextOfFree(text);
    if CText(text) != text {
      assert |CText(text)| < |text|;
    }
  }

  lemma FlagReadsBack(on: bool)
    ensures StringToBool(Fetched(CText(BoolToString(on)))) == on
  {
    assert Storable("true") && Storable("false");
    FetchedOfStored(BoolToString(on));
    BoolRoundTrip(on);
  }

  /** Whether a setting comes back: a storable text, or no stale entry where it is empty. */
  ghost predicate ComesBack(d: Settings, base: Section, key: Key) {
    IsFlag(key) || (if d[key].text == "" then EntryOr(base, KeyName(key), "") == "" else Storable(d[key].text))
  }

  ghost predicate AllComeBack(d: Settings, base: Section) {
    forall key | HasEntry(key) :: ComesBack(d, base, key)
  }

  /** What a load of the saved settings finds: flags and storable texts come back; an empty text
      leaves whatever the section held before. */
  lemma FieldOfReload(e: Settings, d: Settings, base: Section, key: Key)
    requires e[OfText(Dsn)].text != "" && HasEntry(key) && e[key] == Default(key)
    ensures Loaded(e, Saved(base, d))[key] ==
            match d[key] {
              case Flag(_) => d[key]
              case Text(text) => Text(if text == "" then EntryOr(base, KeyName(key), "") else Fetched(CText(text)))
            }
  {
    KeyOfName(key);
    WrittenEntry(base, d, ENTRIES, KeyName(key));
    if IsFlag(key) {
      FlagReadsBack(d[key].on);
    }
  }

  lemma FieldComesBack(e: Settings, d: Settings, base: Section, key: Key)
    requires e[OfText(Dsn)].text != "" && HasEntry(key) && e[key] == Default(key)
    ensures Loaded(e, Saved(base, d))[key] == d[key] <==> ComesBack(d, base, key)
  {
    FieldOfReload(e, d, base, key);
    if !IsFlag(key) {
      FetchedOfStored(d[key].text);
    }
  }

  ghost predicate NamedFresh(e: Settings, name: string) {
    e[OfText(Dsn)] == Text(name) && forall key: Key | key != OfText(Dsn) :: e[key] == Default(key)
  }

  ghost predicate SameButDriver(loaded: Settings, d: Settings) {
    forall key: Key :: loaded[key] == if key == OfText(Driver) then Text("") else d[key]
  }

  /** A new object with a name. */
  function NamedDefaults(name: string): (d: Settings)
    ensures NamedFresh(d, name)
  {
    FRESH[OfText(Dsn) := Text(name)]
  }

  ghost predicate Matches(loaded: Settings, d: Settings, base: Section, key: Key) {
    (loaded[key] == if key == OfText(Driver) then Text("") else d[key]) <==> !HasEntry(key) || ComesBack(d, base, key)
  }

  lemma FieldMatches(e: Settings, d: Settings, base: Section, key: Key)
    requires NamedFresh(e, d[OfText(Dsn)].text) && d[OfText(Dsn)].text != ""
    ensures Matches(Loaded(e, Saved(base, d)), d, base, key)
  {
    if HasEntry(key) {
      FieldComesBack(e, d, base, key);
    }
  }

  lemma AllMatch(loaded: Settings, d: Settings, base: Section)
    requires forall key :: Matches(loaded, d, base, key)
    ensures SameButDriver(loaded, d) <==> AllComeBack(d, base)
  {
    if !SameButDriver(loaded, d) {
      var key :| loaded[key] != if key == OfText(Driver) then Text("") else d[key];
      assert Matches(loaded, d, base, key);
    }
    if !AllComeBack(d, base) {
      var key :| HasEntry(key) && !ComesBack(d, base, key);
      assert Matches(loaded, d, base, key);
    }
  }

  /** An otherwise fresh object of the same name loads every setting but the driver exactly when
      every text is storable and no stale entry stands where a text is empty. */
  lemma LoadOfSaved(e: Settings, d: Settings, base: Section)
    requires NamedFresh(e, d[OfText(Dsn)].text) && d[OfText(Dsn)].text != ""
    ensures SameButDriver(Loaded(e, Saved(base, d)), d) <==> AllComeBack(d, base)
  {
    forall key ensures Matches(Loaded(e, Saved(base, d)), d, base, key) {
      FieldMatches(e, d, base, key);
    }
    AllMatch(Loaded(e, Saved(base, d)), d, base);
  }

  // ---- Configuring a data source again

  lemma NotTheDriverEntry(key: Key)
    ensures KeyName(key) != DRIVER_ENTRY
  {
    if key == OfText(Driver) {
      assert KeyName(key)[1] == 'R';
    } else {
      assert KeyName(key)[0] != 'D' || |KeyName(key)| != 6;
    }
  }

  /** Whether a stale entry is in the way: only where the installer keeps the section of the new
      name, which is not the one just removed. */
  ghost predicate Stale(sections: Sections, name: string, newName: string, keeps: bool, key: Key) {
    keeps && CText(newName) != CText(name) && EntryOr(SectionOf(sections, newName), KeyName(key), "") != ""
  }

  lemma RegisteredEntry(sections: Sections, name: string, newName: string, driver: string, keeps: bool, key: Key)
    ensures EntryOr(Registered(Removed(sections, name), newName, driver, keeps), KeyName(key), "") != "" <==>
            Stale(sections, name, newName, keeps, key)
  {
    NotTheDriverEntry(key);
  }

  ghost predicate AllKept(sections: Sections, name: string, d: Settings, keeps: bool) {
    forall key | HasEntry(key) && !IsFlag(key) ::
      if d[key].text == "" then !Stale(sections, name, d[OfText(Dsn)].text, keeps, key) else Storable(d[key].text)
  }

  lemma KeptComesBack(sections: Sections, name: string, d: Settings, driver: string, keeps: bool)
    ensures AllComeBack(d, Registered(Removed(sections, name), d[OfText(Dsn)].text, driver, keeps)) <==>
            AllKept(sections, name, d, keeps)
  {
    var newName := d[OfText(Dsn)].text;
    forall key
      ensures EntryOr(Registered(Removed(sections, name), newName, driver, keeps), KeyName(key), "") != ""
              <==> Stale(sections, name, newName, keeps, key)
    {
      RegisteredEntry(sections, name, newName, driver, keeps, key);
    }
  }

  /** After the old section is removed and the new one created, a load gives the new settings,
      but for the driver, exactly when their texts are storable and, under a new name whose
      section the installer keeps, no stale entry stands where a text is empty. */
  lemma LoadOfReconfigured(sections: Sections, name: string, e: Settings, d: Settings, driver: string, keeps: bool)
    requires NamedFresh(e, d[OfText(Dsn)].text) && d[OfText(Dsn)].text != ""
    ensures SameButDriver(
              Loaded(e, SectionOf(Created(Removed(sections, name), d, driver, keeps), d[OfText(Dsn)].text)), d)
            <==> AllKept(sections, name, d, keeps)
  {
    var base := Registered(Removed(sections, name), d[OfText(Dsn)].text, driver, keeps);
    LoadOfSaved(e, d, base);
    KeptComesBack(sections, name, d, driver, keeps);
  }

  // ---- Entry by entry

  /** What a load takes: an empty text from the entry with its name, cut to 1000 characters, a flag
      from its entry or else its default, and never the name itself or the driver. */
  lemma LoadedText(d: Settings, section: Section, k: TextKey, name: string)
    requires d[OfText(Dsn)].text != "" && name == KeyName(OfText(k)) && k != Dsn && k != Driver
    ensures var text, loaded := d[OfText(k)].text, Loaded(d, section)[OfText(k)].text;
            && (text != "" || name !in section ==> loaded == text)
            && (text == "" && name in section && Free(section[name], '\0') ==>
                  loaded == if |section[name]| <= 1000 then section[name] else section[name][..1000])
  {
    LoadedKey(d, section, OfText(k));
    MergedAs(section, OfText(k), d[OfText(k)].text, name);
    EntryRead(section, name);
  }

  lemma MergedAs(section: Section, key: Key, text: string, name: string)
    requires !IsFlag(key) && name == KeyName(key)
    ensures MergedValue(key, Text(text), section).text == if text == "" then EntryOr(section, name, "") else text
  {
  }

  lemma LoadedKey(d: Settings, section: Section, key: Key)
    requires d[OfText(Dsn)].text != "" && HasEntry(key)
    ensures Loaded(d, section)[key] == MergedValue(key, d[key], section)
  {
    AllKeys(key);
  }

  lemma NeverLoaded(d: Settings, section: Section)
    ensures Loaded(d, section)[OfText(Dsn)] == d[OfText(Dsn)] && Loaded(d, section)[OfText(Driver)] == d[OfText(Driver)]
  {
    AllKeys(OfText(Dsn));
    AllKeys(OfText(Driver));
  }

  lemma EntryRead(section: Section, name: string)
    ensures name !in section ==> EntryOr(section, name, "") == ""
    ensures name in section && Free(section[name], '\0') ==>
              EntryOr(section, name, "") == if |section[name]| <= 1000 then section[name] else section[name][..1000]
  {
    if name in section && Free(section[name], '\0') {
      FetchedOfFree(section[name]);
    }
  }

  lemma FetchedOfFree(v: string)
    requires Free(v, '\0')
    ensures Fetched(v) == if |v| <= 1000 then v else v[..1000]
  {
    CTextOfFree(if |v| <= 1000 then v else v[..1000]);
  }

  lemma LoadedFlag(d: Settings, section: Section, f: FlagKey, name: string)
    requires d[OfText(Dsn)].text != "" && name == KeyName(OfFlag(f))
    ensures var loaded := Loaded(d, section)[OfFlag(f)].on;
            && (name !in section ==> loaded == (f == DisableGetObjectMetadata))
            && (name in section && |section[name]| <= 1000 && Free(section[name], '\0') ==>
                  loaded == StringToBool(section[name]))
  {
    LoadedKey(d, section, OfFlag(f));
    FlagOr(f == DisableGetObjectMetadata);
    if name in section && Free(section[name], '\0') {
      FetchedOfFree(section[name]);
    }
  }

  lemma FlagOr(on: bool)
    ensures StringToBool(Fetched(BoolToString(on))) == on
  {
    FetchedOfFree(BoolToString(on));
    BoolRoundTrip(on);
  }

  /** Without a name a load changes nothing. */
  lemma NothingWithoutName(d: Settings, section: Section)
    requires d[OfText(Dsn)].text == ""
    ensures Loaded(d, section) == d
  {
  }

  /** What a save writes: a text that is not empty, and every flag as `true` or `false`, each
      under its name; all else stays as it was. */
  lemma SavedTextEntry(base: Section, d: Settings, k: TextKey, name: string)
    requires k != Dsn && k != Driver && name == KeyName(OfText(k))
    ensures var text, saved := d[OfText(k)].text, Saved(base, d);
            && (text != "" ==> name in saved && saved[name] == CText(text))
            && (text == "" ==> (name in saved <==> name in base) && (name in base ==> saved[name] == base[name]))
  {
    SavedKey(base, d, OfText(k), name);
  }

  lemma SavedKey(base: Section, d: Settings, key: Key, name: string)
    requires HasEntry(key) && name == KeyName(key)
    ensures var text, saved := SavedText(d[key]), Saved(base, d);
            && (text != "" ==> name in saved && saved[name] == CText(text))
            && (text == "" ==> (name in saved <==> name in base) && (name in base ==> saved[name] == base[name]))
  {
    KeyOfName(key);
    AllKeys(key);
    WrittenEntry(base, d, ENTRIES, name);
  }

  lemma SavedFlag(base: Section, d: Settings, f: FlagKey, name: string)
    requires name == KeyName(OfFlag(f))
    ensures name in Saved(base, d) && Saved(base, d)[name] == if d[OfFlag(f)].on then "true" else "false"
  {
    SavedKey(base, d, OfFlag(f), name);
    SavedFlagText(d[OfFlag(f)].on);
  }

  lemma SavedFlagText(on: bool)
    ensures CText(SavedText(Flag(on))) == if on then "true" else "false"
  {
    CTextOfFree(BoolToString(on));
  }

  lemma SavedOther(base: Section, d: Settings, name: string)
    requires KeyOf(name) in {None, Some(OfText(Dsn)), Some(OfText(Driver))}
    ensures name in Saved(base, d) <==> name in base
    ensures name in base ==> Saved(base, d)[name] == base[name]
  {
    WrittenEntry(base, d, ENTRIES, name);
  }

  /** Creating a data source touches its own section alone, and names the driver there. */
  lemma CreatedSections(sections: Sections, d: Settings, driver: string, keeps: bool, other: string)
    ensures var name, after := CText(d[OfText(Dsn)].text), Created(sections, d, driver, keeps);
            && name in after && "Driver" in after[name] && after[name]["Driver"] == CText(driver)
            && (other != name ==>
                  (other in after <==> other in sections) && (other in sections ==> after[other] == sections[other]))
  {
    var name := d[OfText(Dsn)].text;
    DriverIsNoKey();
    SavedOther(Registered(sections, name, driver, keeps), d, "Driver");
  }

  lemma DriverIsNoKey()
    ensures KeyOf("Driver") == None
  {
    forall k: Key ensures KeyName(k) != "Driver" {
      NotTheDriverEntry(k);
    }
  }

  lemma RemovedSections(sections: Sections, name: string, other: string)
    ensures CText(name) !in Removed(sections, name)
    ensures other != CText(name) ==>
              (other in Removed(sections, name) <==> other in sections)
              && (other in sections ==> Removed(sections, name)[other] == sections[other])
  {
  }

  /** Connecting by name: the name given, the credentials given, and all else as stored under that
      name. */
  lemma NameTaken(d: Settings, sections: Sections, name: string, user: Option<string>, password: Option<string>)
    ensures var after := ConnectedByName(d, sections, name, user, password);
            var loaded := Loaded(d[OfText(Dsn) := Text(name)], SectionOf(sections, name));
            && after[OfText(Dsn)] == Text(name)
            && after[OfText(Uid)] == (if user.Some? then Text(user.value) else loaded[OfText(Uid)])
            && after[OfText(Pwd)] == (if password.Some? then Text(password.value) else loaded[OfText(Pwd)])
            && forall key: Key | key != OfText(Uid) && key != OfText(Pwd) :: after[key] == loaded[key]
  {
    NeverLoaded(d[OfText(Dsn) := Text(name)], SectionOf(sections, name));
  }
}
