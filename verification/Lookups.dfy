/** Decoding of lookup columns: a code, or a comma-separated list of codes, becomes the long
    values that the metadata gives for them. */
module Lookups {
  import opened Text

  datatype Interpretation = Lookup | LookupMulti | OtherInterpretation

  /** The parts of a table's metadata that decoding looks at. `level` is Resource:Class. */
  datatype LookupTable = LookupTable(interpretation: Interpretation, lookupName: string, level: string,
                                     useSeparator: bool)

  /** Long values by resource, lookup name and code. */
  type LookupTypes = map<(string, string, string), string>

  predicate IsLookupColumn(table: LookupTable) {
    table.interpretation.Lookup? || table.interpretation.LookupMulti?
  }

  /** The code itself stands in where the metadata is broken or does not know it. */
  function LongValue(types: LookupTypes, table: LookupTable, code: string): string {
    if !IsLookupColumn(table) || table.lookupName == "" then code
    else
      var key := (Split(table.level, ':')[0], table.lookupName, code);
      if key in types then types[key] else code
  }

  function LongValues(types: LookupTypes, table: LookupTable, codes: seq<string>): (values: seq<string>)
    ensures |values| == |codes|
    ensures forall i | 0 <= i < |codes| :: values[i] == LongValue(types, table, codes[i])
  {
    seq(|codes|, i requires 0 <= i < |codes| => LongValue(types, table, codes[i]))
  }

  function Decoded(types: LookupTypes, table: LookupTable, data: string): string {
    if table.interpretation.Lookup? then LongValue(types, table, data)
    else Join(LongValues(types, table, Split(data, ',')), ',')
  }

  method LookupDecoder(types: LookupTypes, table: LookupTable, data: string) returns (result: string)
    ensures result == Decoded(types, table, data)
  {
    if table.interpretation.Lookup? {
      return LongValue(types, table, data);
    }
    var dataParts := Split(data, ',');
    var resultParts := [];
    for i := 0 to |dataParts|
      invariant resultParts == LongValues(types, table, dataParts[..i])
    {
      resultParts := resultParts + [LongValue(types, table, dataParts[i])];
    }
    assert dataParts[..|dataParts|] == dataParts;
    return Join(resultParts, ',');
  }

  /** Field i of a decoded multi-lookup is the long value of code i, for as many fields as
      there are codes, exactly when no long value used contains a comma. */
  lemma DecodesPositionWise(types: LookupTypes, table: LookupTable, data: string)
    requires !table.interpretation.Lookup?
    ensures var codes := Split(data, ',');
            Split(Decoded(types, table, data), ',') == LongValues(types, table, codes)
            <==> forall i | 0 <= i < |codes| :: Free(LongValue(types, table, codes[i]), ',')
  {
    SplitOfJoin(LongValues(types, table, Split(data, ',')), ',');
  }

  /** With no code known to the metadata, decoding changes nothing. */
  lemma DecodesUnknownToItself(types: LookupTypes, table: LookupTable, data: string)
    requires forall code | code in Split(data, ',') + [data] :: LongValue(types, table, code) == code
    ensures Decoded(types, table, data) == data
  {
    assert data in Split(data, ',') + [data];
    var codes := Split(data, ',');
    forall i | 0 <= i < |codes| ensures LongValues(types, table, codes)[i] == codes[i] {
      assert codes[i] in codes + [data];
    }
    assert LongValues(types, table, codes) == codes;
    JoinOfSplit(data, ',');
  }

  /** A known code becomes its long value, found under the resource that the table's level
      starts with, the lookup's name and the code. */
  lemma KnownCode(types: LookupTypes, table: LookupTable, resource: string, clazz: string, code: string)
    requires table.interpretation.Lookup? || table.interpretation.LookupMulti?
    requires table.lookupName != "" && table.level == resource + ":" + clazz && Free(resource, ':')
    requires (resource, table.lookupName, code) in types
    ensures LongValue(types, table, code) == types[(resource, table.lookupName, code)]
    ensures table.interpretation.Lookup? ==>
              Decoded(types, table, code) == types[(resource, table.lookupName, code)]
  {
    LevelResource(table.level, resource, clazz);
  }

  lemma LevelResource(level: string, resource: string, clazz: string)
    requires level == resource + ":" + clazz && Free(resource, ':')
    ensures Split(level, ':')[0] == resource
  {
    SplitOfConcat(resource, clazz, ':');
    SplitOfFree(resource, ':');
    assert level == resource + [':'] + clazz;
  }

  /** Where the metadata does not know the code, names no lookup, or the column is none, the code
      stays. */
  lemma UnknownCode(types: LookupTypes, table: LookupTable, resource: string, clazz: string, code: string)
    requires table.level == resource + ":" + clazz && Free(resource, ':')
    requires table.interpretation.OtherInterpretation? || table.lookupName == ""
             || (resource, table.lookupName, code) !in types
    ensures LongValue(types, table, code) == code
  {
    LevelResource(table.level, resource, clazz);
  }

  /** A list of known codes becomes the list of their long values, as long as none of these has a
      comma. */
  lemma KnownCodes(types: LookupTypes, table: LookupTable, resource: string, clazz: string, data: string)
    requires table.interpretation.LookupMulti? && table.lookupName != ""
    requires table.level == resource + ":" + clazz && Free(resource, ':')
    requires forall i | 0 <= i < |Split(data, ',')| ::
               var code := Split(data, ',')[i];
               (resource, table.lookupName, code) in types
               && Free(types[(resource, table.lookupName, code)], ',')
    ensures var codes, fields := Split(data, ','), Split(Decoded(types, table, data), ',');
            |fields| == |codes|
            && forall i | 0 <= i < |codes| ::
                 (resource, table.lookupName, codes[i]) in types
                 && fields[i] == types[(resource, table.lookupName, codes[i])]
  {
    var codes := Split(data, ',');
    forall i | 0 <= i < |codes|
      ensures LongValue(types, table, codes[i]) == types[(resource, table.lookupName, codes[i])]
    {
      KnownCode(types, table, resource, clazz, codes[i]);
    }
    DecodesPositionWise(types, table, data);
  }

  // ---- Column::modifyData

  /** A plain column passes its data on; a RETS column decodes lookups unless the server sent
      them decoded, and drops the commas of a column with separators. */
  datatype ColumnData = Unmodified | RetsData(table: LookupTable, useCompactFormat: bool)

  function Modified(types: LookupTypes, how: ColumnData, data: string): string {
    if how.Unmodified? then data
    else
      var decoded := if !how.useCompactFormat && IsLookupColumn(how.table) then Decoded(types, how.table, data)
                     else data;
      if how.table.useSeparator then EraseAll(decoded, ',') else decoded
  }

  /** A lookup column whose values the server sends as codes delivers the long value of a known
      code, and every other column its data; commas go where the column has separators. */
  lemma ModifiedLookup(types: LookupTypes, how: ColumnData, resource: string, clazz: string, code: string)
    requires how.RetsData? && how.table.interpretation.Lookup? && how.table.lookupName != ""
    requires how.table.level == resource + ":" + clazz && Free(resource, ':')
    requires (resource, how.table.lookupName, code) in types
    ensures var value := if how.useCompactFormat then code else types[(resource, how.table.lookupName, code)];
            && (!how.table.useSeparator ==> Modified(types, how, code) == value)
            && (how.table.useSeparator ==> Modified(types, how, code) == EraseAll(value, ','))
  {
    KnownCode(types, how.table, resource, clazz, code);
  }

  lemma ModifiedPlain(types: LookupTypes, how: ColumnData, data: string)
    requires how.Unmodified? || how.useCompactFormat || how.table.interpretation.OtherInterpretation?
    ensures Modified(types, how, data) ==
            if how.RetsData? && how.table.useSeparator then EraseAll(data, ',') else data
  {
  }

  method ModifyData(types: LookupTypes, how: ColumnData, data: string) returns (result: string)
    ensures result == Modified(types, how, data)
    ensures how.Unmodified? ==> result == data
    ensures how.RetsData? && how.table.useSeparator ==> Free(result, ',')
  {
    if how.RetsData? && how.table.useSeparator {
      var decoded := if !how.useCompactFormat && IsLookupColumn(how.table) then Decoded(types, how.table, data)
                     else data;
      ErasedIsFree(decoded, ',');
    }
    result := data;
    if how.RetsData? {
      if !how.useCompactFormat && IsLookupColumn(how.table) {
        result := LookupDecoder(types, how.table, data);
      }
      if how.table.useSeparator {
        result := EraseAll(result, ',');
      }
    }
  }
}
