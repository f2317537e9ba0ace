/** Data source objects: they read and print connection strings, and save themselves to and load
    themselves from the ODBC INI. */
module DataSourceObjects {
  import opened Text
  import opened DataSources
  import opened IniEntries

  /** The ODBC INI, behind the installer's calls. Whether registering a name keeps a section of
      that name is up to the installer. */
  class Ini {
    var sections: Sections
    const keepsSections: bool

    function GetPrivateProfileString(name: string, entry: string, defaultValue: string): string
      reads this
    {
      var section := SectionOf(sections, name);
      if entry in section then section[entry] else defaultValue
    }

    method WritePrivateProfileString(name: string, entry: string, value: string)
      modifies this
      ensures sections == old(sections)[CText(name) := old(SectionOf(sections, name))[entry := CText(value)]]
    {
      sections := sections[CText(name) := SectionOf(sections, name)[entry := CText(value)]];
    }

    method WriteDsnToIni(name: string, driver: string)
      modifies this
      ensures sections == old(sections)[CText(name) := old(Registered(sections, name, driver, keepsSections))]
    {
      sections := sections[CText(name) := Registered(sections, name, driver, keepsSections)];
    }

    method RemoveDsnFromIni(name: string)
      modifies this
      ensures sections == Removed(old(sections), name)
    {
      sections := sections - {CText(name)};
    }
  }

  class DataSource {
    /** The members, each under the key that prints and stores it. */
    var members: Settings

    constructor ()
      ensures members == FRESH
    {
      members := FRESH;
    }

    constructor Named(name: string)
      ensures members == NamedDefaults(name) == FRESH[OfText(Dsn) := Text(name)]
    {
      members := FRESH[OfText(Dsn) := Text(name)];
    }

    method SetText(key: Key, text: string)
      requires !IsFlag(key)
      modifies this`members
      ensures members == WithText(old(members), key, text)
    {
      members := members[key := Text(text)];
    }

    method IsComplete() returns (complete: bool)
      ensures complete == Complete(members)
    {
      complete := members[OfText(LoginUrl)].text != "" && members[OfText(Uid)].text != ""
                  && members[OfText(Pwd)].text != "";
    }

    // ---- Connection strings

    /** Appends `name=value;` unless the value is empty. */
    method AppendToConnectionString(text: string, name: string, value: string) returns (more: string)
      ensures more == text + if value == "" then "" else name + "=" + value + ";"
    {
      more := text;
      if value != "" {
        more := more + (name + "=" + value + ";");
      }
    }

    method AppendMember(text: string, key: Key) returns (more: string)
      ensures more == text + Piece(members, key)
    {
      more := text;
      if Carried(members, key) {
        match members[key] {
          case Text(value) =>
            more := AppendToConnectionString(text, KeyName(key), value);
          case Flag(on) =>
            if key == OfFlag(StandardNames) || on != Default(key).on {
              more := AppendToConnectionString(text, KeyName(key), BoolToString(on));
            }
        }
      }
    }

    method GetConnectionString() returns (text: string)
      ensures text == ConnectionString(members)
    {
      text := "";
      for i := 0 to |ORDER|
        invariant text == Printed(members, ORDER[..i])
      {
        text := AppendMember(text, ORDER[i]);
        assert ORDER[..i + 1][..i] == ORDER[..i];
      }
      assert ORDER[..|ORDER|] == ORDER;
    }

    static lemma NoneNamed(name: string, keys: seq<Key>)
      requires (forall k: Key :: k in keys) && forall j | 0 <= j < |keys| :: KeyName(keys[j]) != name
      ensures KeyOf(name) == None
    {
      forall k: Key ensures KeyName(k) != name {
        assert k in keys;
      }
    }

    static method FindKey(name: string, keys: seq<Key>) returns (key: Option<Key>)
      requires forall k: Key :: k in keys
      ensures key == KeyOf(name)
    {
      for i := 0 to |keys|
        invariant forall j | 0 <= j < i :: KeyName(keys[j]) != name
      {
        var k := keys[i];
        if KeyName(k) == name {
          KeyOfName(k);
          return Some(k);
        }
      }
      NoneNamed(name, keys);
      return None;
    }

    method SetFromToken(token: string, keys: seq<Key>)
      requires forall k: Key :: k in keys
      modifies this`members
      ensures members == ApplyToken(old(members), token)
    {
      var (name, value) := Cut(token);
      var key := FindKey(name, keys);
      if key.Some? {
        members := Put(members, key.value, value);
      }
    }

    method SetFromTokens(tokens: seq<string>, keys: seq<Key>)
      requires forall k: Key :: k in keys
      modifies this`members
      ensures members == ApplyTokens(old(members), tokens)
    {
      ghost var before := members;
      for i := 0 to |tokens|
        invariant members == ApplyTokens(before, tokens[..i])
      {
        SetFromToken(tokens[i], keys);
        assert tokens[..i + 1] == tokens[..i] + [tokens[i]];
        ApplyOneMore(before, tokens[..i], tokens[i]);
      }
      assert tokens[..|tokens|] == tokens;
    }

    method SetFromOdbcConnectionString(text: string)
      modifies this`members
      ensures members == Parsed(old(members), text)
    {
      AllInOrder();
      SetFromTokens(Split(text, ';'), ORDER);
    }

    // ---- The INI

    function GetProfileString(ini: Ini, entry: string, defaultValue: string): string
      reads this, ini
    {
      Fetched(ini.GetPrivateProfileString(members[OfText(Dsn)].text, entry, defaultValue))
    }

    function GetProfileBool(ini: Ini, entry: string, defaultOn: bool): bool
      reads this, ini
    {
      StringToBool(GetProfileString(ini, entry, BoolToString(defaultOn)))
    }

    method MergeFromProfileString(ini: Ini, text: string, entry: string) returns (merged: string)
      ensures merged == MergedText(text, entry, SectionOf(ini.sections, members[OfText(Dsn)].text))
    {
      merged := text;
      if merged == "" {
        merged := GetProfileString(ini, entry, "");
      }
    }

    method LoadMember(ini: Ini, key: Key) returns (loaded: Value)
      ensures loaded == MergedValue(key, members[key], SectionOf(ini.sections, members[OfText(Dsn)].text))
    {
      match members[key] {
        case Text(text) =>
          var merged := MergeFromProfileString(ini, text, KeyName(key));
          loaded := Text(merged);
        case Flag(_) =>
          loaded := Flag(GetProfileBool(ini, KeyName(key), Default(key).on));
      }
    }

    method MergeMember(ini: Ini, key: Key)
      modifies this`members
      ensures members == MergeOne(old(members), SectionOf(ini.sections, old(members[OfText(Dsn)].text)), key)
    {
      var loaded := LoadMember(ini, key);
      members := members[key := loaded];
    }

    /** The members among some keys are loaded from the section of the name. */
    ghost predicate Loading(ini: Ini, before: Settings, section: Section, keys: seq<Key>)
      reads this, ini
    {
      LoadedSoFar(before, section, members, keys) == true
      && section == SectionOf(ini.sections, members[OfText(Dsn)].text)
    }

    /** Loads one more member, if it has an entry; the section stays. */
    method MergeNext(ini: Ini, key: Key, ghost before: Settings, ghost section: Section, ghost keys: seq<Key>)
      requires Loading(ini, before, section, keys) == true
      modifies this`members
      ensures Loading(ini, before, section, keys + [key]) == true
    {
      OneMoreLoaded(before, section, members, keys, key);
      if HasEntry(key) {
        MergeMember(ini, key);
      }
    }

    method MergeMembers(ini: Ini, keys: seq<Key>)
      requires forall key: Key :: key in keys
      modifies this`members
      ensures LoadedSoFar(old(members), SectionOf(ini.sections, old(members[OfText(Dsn)].text)), members, keys) == true
    {
      ghost var before, section := members, SectionOf(ini.sections, members[OfText(Dsn)].text);
      NothingLoaded(before, section);
      assert keys[..0] == [];
      for i := 0 to |keys|
        invariant Loading(ini, before, section, keys[..i]) == true
      {
        MergeNext(ini, keys[i], before, section, keys[..i]);
        assert keys[..i + 1] == keys[..i] + [keys[i]];
      }
      assert keys[..|keys|] == keys;
    }

    /** Without a name there is nothing to load. */
    method MergeFromIni(ini: Ini)
      modifies this`members
      ensures members == Loaded(old(members), SectionOf(ini.sections, old(members[OfText(Dsn)].text)))
    {
      if members[OfText(Dsn)].text != "" {
        ghost var before, section := members, SectionOf(ini.sections, members[OfText(Dsn)].text);
        AllInOrder();
        MergeMembers(ini, ORDER);
        AllLoaded(before, section, members, ORDER);
      }
    }

    /** Takes what is stored under the name, if there is one. */
    method Load(ini: Ini)
      modifies this`members
      ensures LoadedFrom(old(members), ini.sections, members) == true
    {
      ghost var before := members;
      MergeFromIni(ini);
      LoadedIsFrom(before, ini.sections, members);
    }

    /** Takes a name and what is stored under it, and the credentials given. */
    method PrepareByName(ini: Ini, name: string, user: Option<string>, password: Option<string>)
      modifies this`members
      ensures TookName(old(members), members, ini.sections, name, user, password) == true
    {
      SetText(OfText(Dsn), name);
      MergeFromIni(ini);
      if user.Some? {
        SetText(OfText(Uid), user.value);
      }
      if password.Some? {
        SetText(OfText(Pwd), password.value);
      }
    }

    /** Takes a connection string, and what is stored under its name. `connection` is the string
        for what is connected to. */
    method PrepareByString(ini: Ini, text: string) returns (complete: bool, connection: string)
      modifies this`members
      ensures TookString(old(members), members, ini.sections, text, complete, connection) == true
      ensures complete <==>
              members[OfText(LoginUrl)].text != "" && members[OfText(Uid)].text != "" && members[OfText(Pwd)].text != ""
    {
      SetFromOdbcConnectionString(text);
      Load(ini);
      complete := IsComplete();
      connection := GetConnectionString();
    }

    method WriteProfileString(ini: Ini, entry: string, value: string)
      modifies ini
      ensures ini.sections == EntryWritten(old(ini.sections), members[OfText(Dsn)].text, entry, value)
    {
      if value != "" {
        ini.WritePrivateProfileString(members[OfText(Dsn)].text, entry, value);
      }
    }

    method WriteMember(ini: Ini, key: Key, ghost before: Sections, ghost done: set<Key>) returns (ghost next: set<Key>)
      requires Progress(before, ini.sections, members, done) == true
      modifies ini
      ensures next == done + {key} && Progress(before, ini.sections, members, next) == true
    {
      MoreProgress(before, ini.sections, members, done, key);
      WriteProfileString(ini, KeyName(key), SavedText(members[key]));
      next := done + {key};
    }

    /** Writes one more member, if it has an entry. */
    method WriteNext(ini: Ini, key: Key, ghost before: Sections, ghost done: set<Key>, ghost keys: seq<Key>)
      returns (ghost next: set<Key>)
      requires Progress(before, ini.sections, members, done) == true && Entries(done, keys) == true
      modifies ini
      ensures Progress(before, ini.sections, members, next) == true && Entries(next, keys + [key]) == true
    {
      EntriesOneMore(done, keys, key);
      next := done;
      if HasEntry(key) {
        next := WriteMember(ini, key, before, done);
      }
    }

    method WriteMembers(ini: Ini, keys: seq<Key>)
      requires forall key: Key :: key in keys
      modifies ini
      ensures ini.sections == SavedIn(old(ini.sections), members)
    {
      ghost var before, done := ini.sections, {};
      NoProgress(before, members);
      for i := 0 to |keys|
        invariant Progress(before, ini.sections, members, done) == true
        invariant Entries(done, keys[..i]) == true
      {
        done := WriteNext(ini, keys[i], before, done, keys[..i]);
        assert keys[..i + 1] == keys[..i] + [keys[i]];
      }
      assert keys[..|keys|] == keys;
      AllEntries(done, keys);
      AllProgress(before, ini.sections, members);
    }

    /** Throws without a name. */
    method WriteToIni(ini: Ini) returns (thrown: bool)
      modifies ini
      ensures thrown == (members[OfText(Dsn)].text == "")
      ensures ini.sections == if thrown then old(ini.sections) else SavedIn(old(ini.sections), members)
    {
      if members[OfText(Dsn)].text == "" {
        return true;
      }
      AllInOrder();
      WriteMembers(ini, ORDER);
      return false;
    }

    method CreateInIni(ini: Ini, driver: string) returns (thrown: bool)
      modifies ini
      ensures thrown == (members[OfText(Dsn)].text == "")
      ensures ini.sections ==
              if thrown then old(ini.sections) else Created(old(ini.sections), members, driver, ini.keepsSections)
    {
      if members[OfText(Dsn)].text == "" {
        return true;
      }
      CreatedIsSaved(ini.sections, members, driver, ini.keepsSections);
      ini.WriteDsnToIni(members[OfText(Dsn)].text, driver);
      thrown := WriteToIni(ini);
    }

    method RemoveFromIni(ini: Ini) returns (thrown: bool)
      modifies ini
      ensures thrown == (members[OfText(Dsn)].text == "")
      ensures ini.sections ==
              if thrown then old(ini.sections) else Removed(old(ini.sections), members[OfText(Dsn)].text)
    {
      if members[OfText(Dsn)].text == "" {
        return true;
      }
      ini.RemoveDsnFromIni(members[OfText(Dsn)].text);
      return false;
    }
  }

  /** Configures the data source `name`: what is stored is offered to the user, who may cancel or
      edit it. The old section is always removed, and the edited one then created. */
  method ConfigDsn(ini: Ini, name: string, driver: string, accepted: bool, edited: Settings)
    returns (offered: Settings, thrown: bool)
    modifies ini
    ensures offered == Loaded(NamedDefaults(name), SectionOf(old(ini.sections), name))
    ensures !accepted ==> !thrown && ini.sections == old(ini.sections)
    ensures accepted ==> thrown == (name == "" || edited[OfText(Dsn)].text == "")
    ensures accepted && name == "" ==> ini.sections == old(ini.sections)
    ensures accepted && name != "" && edited[OfText(Dsn)].text == "" ==>
            ini.sections == Removed(old(ini.sections), name)
    ensures accepted && !thrown ==>
            ini.sections == Created(Removed(old(ini.sections), name), edited, driver, ini.keepsSections)
  {
    var dataSource := new DataSource.Named(name);
    dataSource.MergeFromIni(ini);
    offered := dataSource.members;
    thrown := false;
    if accepted {
      var newDataSource := new DataSource();
      newDataSource.members := edited;
      NameStays(NamedDefaults(name), SectionOf(ini.sections, name));
      thrown := dataSource.RemoveFromIni(ini);
      if !thrown {
        thrown := newDataSource.CreateInIni(ini, driver);
      }
    }
  }

  lemma NameStays(e: Settings, section: Section)
    ensures Loaded(e, section)[OfText(Dsn)] == e[OfText(Dsn)]
  {
  }
}
