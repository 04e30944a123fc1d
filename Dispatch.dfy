/** The dispatcher: a field type selects a handler through a fixed switch of
    overrides, then the registry keyed by the type followed by "Func", then
    the fallback `general`. */
module Dispatch {
  import opened Text
  import opened Values
  import opened Handlers

  /** The handlers. IntegerList is defined beside the others but is not in
      the registry, so no field type selects it. */
  datatype Handler =
    | Coordinate | Enum | Integer | UnsignedInteger | Imei | Percent | TimeDate | Duration
    | BoolData | Float | Gummei | NE | Distance | LteEnbId | IntegerList | General

  /** The registry, keyed by the handlers' names. */
  const Registry: map<string, Handler> := map[
    "CoordinateFunc" := Coordinate,
    "EnumDataFunc" := Enum,
    "IntegerDataFunc" := Integer,
    "UnsignedIntegerDataFunc" := UnsignedInteger,
    "ImeiDataFunc" := Imei,
    "PercentDataFunc" := Percent,
    "MillisecondTimeDateDataFunc" := TimeDate,
    "MillisecondDurationDataFunc" := Duration,
    "BoolDataFunc" := BoolData,
    "FloatDataFunc" := Float,
    "GummeiDataFunc" := Gummei,
    "NEDataFunc" := NE,
    "DistanceDataFunc" := Distance,
    "LteEnbIdDataFunc" := LteEnbId,
    "general" := General]

  /** The handler of a field type. Every type gets one; none gets the
      unregistered integer-list handler. */
  function GetHandlerFuncs(fieldType: string): (h: Handler)
    ensures h != IntegerList
    ensures fieldType == "EndLatitudeData" || fieldType == "EndLongitudeData" ==> h == Coordinate
  {
    if fieldType == "EndLatitudeData" || fieldType == "EndLongitudeData" then Coordinate
    else if fieldType == "PrimaryTerminatingNEData" || fieldType == "PrimaryOriginatingNEData"
         || fieldType == "LteNEData" then NE
    else if fieldType == "LteStartEnbIdData" || fieldType == "LteEndEnbIdData" then LteEnbId
    else if fieldType + "Func" in Registry then Registry[fieldType + "Func"]
    else General
  }

  /** The field types that select each handler, listed outright: the
      overrides of the switch and the registry's names without "Func". */
  function FieldTypes(h: Handler): set<string>
  {
    match h
    case Coordinate => {"EndLatitudeData", "EndLongitudeData", "Coordinate"}
    case Enum => {"EnumData"}
    case Integer => {"IntegerData"}
    case UnsignedInteger => {"UnsignedIntegerData"}
    case Imei => {"ImeiData"}
    case Percent => {"PercentData"}
    case TimeDate => {"MillisecondTimeDateData"}
    case Duration => {"MillisecondDurationData"}
    case BoolData => {"BoolData"}
    case Float => {"FloatData"}
    case Gummei => {"GummeiData"}
    case NE => {"PrimaryTerminatingNEData", "PrimaryOriginatingNEData", "LteNEData", "NEData"}
    case Distance => {"DistanceData"}
    case LteEnbId => {"LteStartEnbIdData", "LteEndEnbIdData", "LteEnbIdData"}
    case IntegerList => {}
    case General => {}
  }

  /** Every field type some handler other than `general` is listed for. */
  function KnownFieldTypes(): set<string>
  {
    FieldTypes(Coordinate) + FieldTypes(Enum) + FieldTypes(Integer) + FieldTypes(UnsignedInteger)
    + FieldTypes(Imei) + FieldTypes(Percent) + FieldTypes(TimeDate) + FieldTypes(Duration)
    + FieldTypes(BoolData) + FieldTypes(Float) + FieldTypes(Gummei) + FieldTypes(NE)
    + FieldTypes(Distance) + FieldTypes(LteEnbId)
  }

  /** The registered names: the registry's keys less the suffix "Func". */
  function RegisteredNames(): set<string>
  {
    {"Coordinate", "EnumData", "IntegerData", "UnsignedIntegerData", "ImeiData", "PercentData",
     "MillisecondTimeDateData", "MillisecondDurationData", "BoolData", "FloatData", "GummeiData",
     "NEData", "DistanceData", "LteEnbIdData"}
  }

  /** A field type whose key is in the registry is a registered name: the
      key "general" does not end in "Func". */
  lemma RegistryKeys(t: string)
    requires t + "Func" in Registry
    ensures t in RegisteredNames()
  {
    var k := t + "Func";
    assert t == k[..|t|];
    if k in {"CoordinateFunc", "EnumDataFunc", "IntegerDataFunc", "UnsignedIntegerDataFunc",
             "ImeiDataFunc", "PercentDataFunc", "MillisecondTimeDateDataFunc"} {
      KeysOfFirstHalf(t);
    } else {
      KeysOfSecondHalf(t);
    }
  }

  /** The first seven registry keys, less "Func". */
  lemma KeysOfFirstHalf(t: string)
    requires t + "Func" in {"CoordinateFunc", "EnumDataFunc", "IntegerDataFunc", "UnsignedIntegerDataFunc",
                            "ImeiDataFunc", "PercentDataFunc", "MillisecondTimeDateDataFunc"}
    ensures t in RegisteredNames()
  {
    var k := t + "Func";
    assert t == k[..|t|];
    if k == "CoordinateFunc" {
      assert t == "Coordinate";
    } else if k == "EnumDataFunc" {
      assert t == "EnumData";
    } else if k == "IntegerDataFunc" {
      assert t == "IntegerData";
    } else if k == "UnsignedIntegerDataFunc" {
      assert t == "UnsignedIntegerData";
    } else if k == "ImeiDataFunc" {
      assert t == "ImeiData";
    } else if k == "PercentDataFunc" {
      assert t == "PercentData";
    } else {
      assert t == "MillisecondTimeDateData";
    }
  }

  /** The other registry keys, less "Func"; "general" is not of that form. */
  lemma KeysOfSecondHalf(t: string)
    requires t + "Func" in Registry
    requires t + "Func" !in {"CoordinateFunc", "EnumDataFunc", "IntegerDataFunc", "UnsignedIntegerDataFunc",
                             "ImeiDataFunc", "PercentDataFunc", "MillisecondTimeDateDataFunc"}
    ensures t in RegisteredNames()
  {
    var k := t + "Func";
    assert t == k[..|t|];
    if k == "MillisecondDurationDataFunc" {
      assert t == "MillisecondDurationData";
    } else if k == "BoolDataFunc" {
      assert t == "BoolData";
    } else if k == "FloatDataFunc" {
      assert t == "FloatData";
    } else if k == "GummeiDataFunc" {
      assert t == "GummeiData";
    } else if k == "NEDataFunc" {
      assert t == "NEData";
    } else if k == "DistanceDataFunc" {
      assert t == "DistanceData";
    } else if k == "LteEnbIdDataFunc" {
      assert t == "LteEnbIdData";
    } else {
      assert k == "general" && k[|t|] == 'F';
    }
  }

  /** Registry entries Coordinate, EnumData, IntegerData, UnsignedIntegerData: each registered name selects the handler it is listed for. */
  lemma RegistryEntries1()
    ensures "Coordinate" + "Func" == "CoordinateFunc" && Registry["CoordinateFunc"] == Coordinate
    ensures "EnumData" + "Func" == "EnumDataFunc" && Registry["EnumDataFunc"] == Enum
    ensures "IntegerData" + "Func" == "IntegerDataFunc" && Registry["IntegerDataFunc"] == Integer
    ensures "UnsignedIntegerData" + "Func" == "UnsignedIntegerDataFunc" && Registry["UnsignedIntegerDataFunc"] == UnsignedInteger
  {
  }

  /** Registry entries ImeiData, PercentData, MillisecondTimeDateData, MillisecondDurationData: each registered name selects the handler it is listed for. */
  lemma RegistryEntries2()
    ensures "ImeiData" + "Func" == "ImeiDataFunc" && Registry["ImeiDataFunc"] == Imei
    ensures "PercentData" + "Func" == "PercentDataFunc" && Registry["PercentDataFunc"] == Percent
    ensures "MillisecondTimeDateData" + "Func" == "MillisecondTimeDateDataFunc" && Registry["MillisecondTimeDateDataFunc"] == TimeDate
    ensures "MillisecondDurationData" + "Func" == "MillisecondDurationDataFunc" && Registry["MillisecondDurationDataFunc"] == Duration
  {
  }

  /** Registry entries BoolData, FloatData, GummeiData: each registered name selects the handler it is listed for. */
  lemma RegistryEntries3()
    ensures "BoolData" + "Func" == "BoolDataFunc" && Registry["BoolDataFunc"] == BoolData
    ensures "FloatData" + "Func" == "FloatDataFunc" && Registry["FloatDataFunc"] == Float
    ensures "GummeiData" + "Func" == "GummeiDataFunc" && Registry["GummeiDataFunc"] == Gummei
  {
  }

  /** Registry entries NEData, DistanceData, LteEnbIdData: each registered name selects the handler it is listed for. */
  lemma RegistryEntries4()
    ensures "NEData" + "Func" == "NEDataFunc" && Registry["NEDataFunc"] == NE
    ensures "DistanceData" + "Func" == "DistanceDataFunc" && Registry["DistanceDataFunc"] == Distance
    ensures "LteEnbIdData" + "Func" == "LteEnbIdDataFunc" && Registry["LteEnbIdDataFunc"] == LteEnbId
  {
  }

  /** The registered handlers with their names. */
  lemma RegistryEntries(t: string)
    requires t in RegisteredNames()
    ensures t + "Func" in Registry && t in FieldTypes(Registry[t + "Func"])
  {
    if t in {"Coordinate", "EnumData", "IntegerData", "UnsignedIntegerData"} {
      RegistryEntries1();
    } else if t in {"ImeiData", "PercentData", "MillisecondTimeDateData", "MillisecondDurationData"} {
      RegistryEntries2();
    } else if t in {"BoolData", "FloatData", "GummeiData"} {
      RegistryEntries3();
    } else {
      RegistryEntries4();
    }
  }

  /** The overrides of the switch and the handlers they select. */
  lemma SelectsOverrides()
    ensures GetHandlerFuncs("EndLatitudeData") == Coordinate
    ensures GetHandlerFuncs("EndLongitudeData") == Coordinate
    ensures GetHandlerFuncs("PrimaryTerminatingNEData") == NE
    ensures GetHandlerFuncs("PrimaryOriginatingNEData") == NE
    ensures GetHandlerFuncs("LteNEData") == NE
    ensures GetHandlerFuncs("LteStartEnbIdData") == LteEnbId
    ensures GetHandlerFuncs("LteEndEnbIdData") == LteEnbId
  {
  }

  /** Field types Coordinate, EnumData, IntegerData, UnsignedIntegerData and the handlers they select. */
  lemma Selects1()
    ensures GetHandlerFuncs("Coordinate") == Coordinate
    ensures GetHandlerFuncs("EnumData") == Enum
    ensures GetHandlerFuncs("IntegerData") == Integer
    ensures GetHandlerFuncs("UnsignedIntegerData") == UnsignedInteger
  {
    RegistryEntries1();
  }

  /** Field types ImeiData, PercentData, MillisecondTimeDateData, MillisecondDurationData and the handlers they select. */
  lemma Selects2()
    ensures GetHandlerFuncs("ImeiData") == Imei
    ensures GetHandlerFuncs("PercentData") == Percent
    ensures GetHandlerFuncs("MillisecondTimeDateData") == TimeDate
    ensures GetHandlerFuncs("MillisecondDurationData") == Duration
  {
    RegistryEntries2();
  }

  /** Field types BoolData, FloatData, GummeiData and the handlers they select. */
  lemma Selects3()
    ensures GetHandlerFuncs("BoolData") == BoolData
    ensures GetHandlerFuncs("FloatData") == Float
    ensures GetHandlerFuncs("GummeiData") == Gummei
  {
    RegistryEntries3();
  }

  /** Field types NEData, DistanceData, LteEnbIdData and the handlers they select. */
  lemma Selects4()
    ensures GetHandlerFuncs("NEData") == NE
    ensures GetHandlerFuncs("DistanceData") == Distance
    ensures GetHandlerFuncs("LteEnbIdData") == LteEnbId
  {
    RegistryEntries4();
  }

  /** The listed field types select their handler. */
  lemma ListedTypesSelect(t: string, h: Handler)
    requires t in FieldTypes(h)
    ensures GetHandlerFuncs(t) == h
  {
    SelectsOverrides();
    Selects1();
    Selects2();
    Selects3();
    Selects4();
  }

  /** A field type selects a handler other than `general` exactly when it is
      listed for that handler. */
  lemma DispatchPreimage(t: string, h: Handler)
    requires h != General
    ensures GetHandlerFuncs(t) == h <==> t in FieldTypes(h)
  {
    if t in FieldTypes(h) {
      ListedTypesSelect(t, h);
    }
    if GetHandlerFuncs(t) == h && t + "Func" in Registry {
      RegistryKeys(t);
      RegistryEntries(t);
    }
  }

  /** A field type falls back to `general` exactly when no handler lists it. */
  lemma DispatchFallback(t: string)
    ensures GetHandlerFuncs(t) == General <==> t !in KnownFieldTypes()
  {
    var h := GetHandlerFuncs(t);
    if h != General {
      DispatchPreimage(t, h);
    } else if t in KnownFieldTypes() {
      var g :| g != General && g != IntegerList && t in FieldTypes(g);
      ListedTypesSelect(t, g);
    }
  }

  /** What a handler needs of its value not to fault: the coordinate handler
      reads a length and maps over the value; the padding and IMEI handlers
      call string methods under a non-empty pattern; the integer-list handler
      joins an array; the identifier handlers read a decimal 64-bit text. */
  predicate Admissible(h: Handler, val: RawValue, format: string)
  {
    match h
    case Coordinate => !val.Null? && (val.Str? ==> val.s == [])
    case Integer | UnsignedInteger | Imei => format != [] ==> val.Str?
    case IntegerList => val.Null? || val.List?
    case Gummei | NE | LteEnbId => IsIdentifier(val)
    case _ => true
  }

  /** Runs a handler. The IMEI handler is taken by its specification. */
  function Apply(h: Handler, val: RawValue, format: string, enumDef: Option<map<string, string>>,
                 rt: Runtime): (r: RawValue)
    requires Admissible(h, val, format)
    ensures !r.Null?
  {
    match h
    case Coordinate => CoordinateFunc(val, format, rt)
    case Enum => EnumDataFunc(val, enumDef, rt)
    case Integer | UnsignedInteger => IntegerDataFunc(val, format)
    case Imei => if format != [] then Str(ImeiText(val.s, format)) else Values.General(val)
    case Percent => PercentDataFunc(val, format, rt)
    case TimeDate => TimeDateDataFunc(val, rt)
    case Duration => DurationDataFunc(val, rt)
    case BoolData => BoolDataFunc(val)
    case Float | Distance => FloatDataFunc(val, format, rt)
    case Gummei => GummeiDataFunc(val)
    case NE => NEDataFunc(val)
    case LteEnbId => LteEnbIdDataFunc(val)
    case IntegerList => IntegerListDataFunc(val, rt)
    case General => Values.General(val)
  }

  /** The handlers that accept null: all but the coordinate handler, and the
      padding and IMEI handlers only under an empty pattern. */
  lemma NullAdmissible(h: Handler, format: string)
    ensures Admissible(h, Null, format) <==>
              h != Coordinate && (h in {Integer, UnsignedInteger, Imei} ==> format == [])
  {
  }

  /** Every handler that accepts null shows it as "N/A", except an
      enumeration whose definition has an entry for the text "null". */
  lemma NullPolicy(h: Handler, format: string, enumDef: Option<map<string, string>>, rt: Runtime)
    requires Admissible(h, Null, format)
    requires h == Enum ==> enumDef.None? || "null" !in enumDef.value
    ensures Apply(h, Null, format, enumDef, rt) == Str("N/A")
  {
  }

  /** A field type that no handler lists is shown as `general` shows it: null
      as "N/A", anything else unchanged. */
  lemma UnknownTypeIsGeneral(t: string, val: RawValue, format: string,
                             enumDef: Option<map<string, string>>, rt: Runtime)
    requires t !in KnownFieldTypes()
    ensures Admissible(GetHandlerFuncs(t), val, format)
    ensures Apply(GetHandlerFuncs(t), val, format, enumDef, rt) == Values.General(val)
  {
    DispatchFallback(t);
  }
}
