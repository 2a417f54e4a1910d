/**
 * The scalar variables the editor binds to entries, the values the decoded
 * blob holds under them, and the two conversions between an entry's text and a
 * value: filling an entry when a file is opened, and coercing its text when the
 * file is saved.
 */
module Fields {
  import opened Wrappers
  import opened Numbers

  /**
   * A value of the decoded blob. `json.loads` yields Python ints, floats and
   * other objects; a float is kept as the text `str()` gives for it, any other
   * value (string, bool, list, nested object, null) as its `str()` text.
   */
  datatype Value = Int(n: int) | Real(text: string) | Other(shown: string)

  /** The decoded blob: a JSON object. */
  type Dict = map<string, Value>

  /**
   * The editor's variables, in the order of its table (and so of its entries),
   * written as five consecutive groups of nine to keep facts about the table
   * cheap to prove.
   */
  const Variables: seq<string> := Variables0 + Variables1 + Variables2 + Variables3 + Variables4

  const Variables0: seq<string> := [
    "population", "defcon", "politicalPower", "reserve", "refinancingRate", "export",
    "healthCare", "education", "ecology"
  ]

  const Variables1: seq<string> := [
    "militaryStaffLoyalty", "armyStaffLoyalty", "specialServicesLoyalty", "specialServices",
    "radicalsPower", "freedomLevel", "liberalizationLevel", "educationAccess",
    "healthCareAccess"
  ]

  const Variables2: seq<string> := [
    "selfFulfillment", "luxuryGoodsLevel", "orderLevel", "firstNeedsGoods", "housingLevel",
    "employmentLevel", "agroEffectiveness", "servicesEffectiveness",
    "lightIndustryEffectiveness"
  ]

  const Variables3: seq<string> := [
    "heavyIndustryEffectiveness", "armyIndustryEffectiveness", "intelligentsiaLoyalty",
    "spiritualContentment", "unityLevel", "forgeryLevel", "armyQuantityLevel",
    "warheadsQuantity", "combatability"
  ]

  const Variables4: seq<string> := [
    "competitivenessLevel", "corruptionLevel", "americanArmyLevel", "americanEconomyLevel",
    "americanPopularHappiness", "priceIndex", "usLoan", "fraLoan", "imfLoan"
  ]

  /** The variables edited and stored as integers; every other one is a float. */
  const IntVars: set<string> := {
    "population", "defcon", "reserve", "refinancingRate", "usLoan", "fraLoan", "imfLoan"
  }

  const WarheadsKey := "warheadsQuantity"

  /** The misspelt key some save files use for the warhead count. */
  const LegacyWarheadsKey := "warheadQuantity"

  /** The table's facts the rest of the model relies on. */
  lemma TablesAgree()
    ensures |Variables| == 45
    ensures WarheadsKey in Variables && WarheadsKey !in IntVars
    ensures LegacyWarheadsKey !in Variables
  {
  }

  /** Every integer variable is one of the editor's variables. */
  lemma IntVarsAreVariables()
    ensures forall v | v in IntVars :: v in Variables
  {
  }

  /** `str(value)`: the text an entry is filled with. */
  function Show(x: Value): string
  {
    match x
    case Int(n) => IntToString(n)
    case Real(t) => t
    case Other(t) => t
  }

  /** The keystroke validator of an integer entry: blank, a lone minus, or an integer. */
  predicate ValidateInt(text: string)
  {
    text == "" || text == "-" || ParseInt(text).Some?
  }

  /** The keystroke validator of a float entry: blank, a lone minus, or a float. */
  predicate ValidateFloat(text: string)
  {
    text == "" || text == "-" || IsFloatText(text)
  }

  /** The validator attached to the entry of variable `name`. */
  predicate Validator(name: string, text: string)
  {
    if name in IntVars then ValidateInt(text) else ValidateFloat(text)
  }

  /**
   * The text of a blank entry after the program inserts `text` into it: entry
   * validation runs on every insert, the program's own included, so text the
   * validator rejects leaves the entry blank.
   */
  function Inserted(name: string, text: string): (r: string)
    ensures r == text || r == ""
    ensures Validator(name, r)
  {
    if Validator(name, text) then text else ""
  }

  /** Every entry holds text its validator accepts. */
  ghost predicate AllValid(entries: map<string, string>)
  {
    forall v {:trigger Validator(v, entries[v])} | v in entries :: Validator(v, entries[v])
  }

  /**
   * The value saved for a non-blank entry: `int(text)` for an integer
   * variable, `float(text)` otherwise; None where the conversion raises.
   * Whatever it stores is text the entry's validator lets in, never blank and
   * never the lone minus, and a value of the variable's own kind.
   */
  function Coerce(name: string, text: string): (r: Option<Value>)
    ensures r.Some? ==> Validator(name, text) && text != "" && text != "-"
    ensures r.Some? ==> Suits(name, r.value)
  {
    BareSignIsNotANumber("");
    BareSignIsNotANumber("-");
    if name in IntVars then
      match ParseInt(text)
      case Some(n) => ParseIntWithinLimit(text); Some(Int(n))
      case None => None
    else if IsFloatText(text) then Some(Real(text))
    else None
  }

  /**
   * What the validators let through is exactly what saving can store, plus the
   * blank text (skipped on save) and the lone minus (which saving rejects).
   */
  lemma ValidatorMatchesCoerce(name: string, text: string)
    ensures Validator(name, text) <==> text == "" || text == "-" || Coerce(name, text).Some?
    ensures Validator(name, "-") && Coerce(name, "-").None?
  {
    BareSignIsNotANumber("-");
  }

  /** Every non-blank entry can be coerced, so the save loop runs to its end. */
  ghost predicate Writable(entries: map<string, string>)
  {
    forall v | v in entries && entries[v] != "" :: Coerce(v, entries[v]).Some?
  }

  /**
   * With every entry accepted by its validator, the save loop fails exactly
   * when some entry holds the lone minus sign.
   */
  lemma WritableUnlessDash(entries: map<string, string>)
    requires AllValid(entries)
    ensures Writable(entries) <==> forall v | v in entries :: entries[v] != "-"
  {
    forall v | v in entries
      ensures Validator(v, entries[v]) <==> entries[v] == "" || entries[v] == "-" || Coerce(v, entries[v]).Some?
      ensures Coerce(v, "-").None?
    {
      ValidatorMatchesCoerce(v, entries[v]);
    }
  }

  /** The entries the save loop writes: the non-blank ones. */
  function Written(entries: map<string, string>): set<string>
  {
    set v | v in entries && entries[v] != ""
  }

  /** The blob after the save loop: each non-blank entry's coerced value over `data`. */
  function Updated(data: Dict, entries: map<string, string>): (r: Dict)
    requires Writable(entries)
  {
    map k | k in data.Keys + Written(entries) ::
      if k in Written(entries) then Coerce(k, entries[k]).value else data[k]
  }

  /** The entries the saving loop has visited so far. */
  function Visited(entries: map<string, string>, names: set<string>): map<string, string>
  {
    map w | w in entries && w in names :: entries[w]
  }

  /**
   * One more step of the saving loop: a blank entry changes nothing, a
   * coercible one stores its value, and any other one makes saving fail.
   */
  lemma VisitedStep(entries: map<string, string>, data: Dict, names: set<string>, v: string)
    requires v in entries && Writable(Visited(entries, names))
    ensures var before := Visited(entries, names);
            var after := Visited(entries, names + {v});
            && (entries[v] == "" ==> Writable(after) && Updated(data, after) == Updated(data, before))
            && (entries[v] != "" && Coerce(v, entries[v]).Some? ==>
                  Writable(after) &&
                  Updated(data, after) == Updated(data, before)[v := Coerce(v, entries[v]).value])
            && (entries[v] != "" && Coerce(v, entries[v]).None? ==> !Writable(entries))
  {
    var before := Visited(entries, names);
    var after := Visited(entries, names + {v});
    if v in names {
      assert after == before;
      if entries[v] != "" && Coerce(v, entries[v]).Some? {
        assert v in Written(before);
        assert Updated(data, before)[v] == Coerce(v, entries[v]).value;
      }
    } else {
      assert after == before[v := entries[v]];
      if entries[v] == "" || Coerce(v, entries[v]).Some? {
        UpdatedAddEntry(data, before, v, entries[v]);
      }
    }
  }

  /** Storing one more entry, for a variable not seen yet. */
  lemma UpdatedAddEntry(data: Dict, e: map<string, string>, v: string, t: string)
    requires v !in e && Writable(e) && (t == "" || Coerce(v, t).Some?)
    ensures Writable(e[v := t])
    ensures t == "" ==> Updated(data, e[v := t]) == Updated(data, e)
    ensures t != "" ==> Updated(data, e[v := t]) == Updated(data, e)[v := Coerce(v, t).value]
  {
    var e' := e[v := t];
    if t == "" {
      assert Written(e') == Written(e);
    } else {
      assert Written(e') == Written(e) + {v};
    }
  }

  /** Once every entry is visited the loop has seen all of them. */
  lemma VisitedAll(entries: map<string, string>, names: set<string>)
    requires entries.Keys <= names
    ensures Visited(entries, names) == entries
  {
  }

  /**
   * Partial update: a blank entry leaves the stored value as it was, and a key
   * that is not an entry (the legacy warhead key, tables, anything else) is
   * never touched.
   */
  lemma UpdatedKeepsUntouched(data: Dict, entries: map<string, string>, k: string)
    requires Writable(entries)
    requires k !in entries || entries[k] == ""
    ensures k in Updated(data, entries) <==> k in data
    ensures k in data ==> Updated(data, entries)[k] == data[k]
  {
  }

  /**
   * Typed write: a non-blank entry is stored under its own name, added if it
   * was absent, as `int(text)` for an integer variable and `float(text)` for
   * any other.
   */
  lemma UpdatedWritesEntry(data: Dict, entries: map<string, string>, k: string)
    requires Writable(entries)
    requires k in entries && entries[k] != ""
    ensures k in Updated(data, entries)
    ensures k in IntVars ==> Updated(data, entries)[k] == Int(ParseInt(entries[k]).value)
    ensures k !in IntVars ==> Updated(data, entries)[k] == Real(entries[k])
  {
    assert k in Written(entries);
  }

  /** No key disappears from the blob on save. */
  lemma UpdatedKeys(data: Dict, entries: map<string, string>)
    requires Writable(entries)
    ensures Updated(data, entries).Keys == data.Keys + Written(entries)
  {
  }

  /**
   * The text the entry of `name` shows after a file is opened. When the blob
   * holds the variable (or, for the warhead count, only the legacy key) the
   * entry is cleared and the value's `str()` inserted; otherwise the entry
   * keeps its previous text.
   */
  function LoadedEntry(name: string, previous: string, data: Dict): string
  {
    if name in data then Inserted(name, Show(data[name]))
    else if name == WarheadsKey && LegacyWarheadsKey in data then Inserted(name, Show(data[LegacyWarheadsKey]))
    else previous
  }

  function LoadedEntries(entries: map<string, string>, data: Dict): map<string, string>
  {
    map v | v in entries :: LoadedEntry(v, entries[v], data)
  }

  /** The entries once the opening loop has visited the variables `names`. */
  ghost function LoadedOn(entries: map<string, string>, data: Dict, names: set<string>): map<string, string>
  {
    map v | v in entries :: if v in names then LoadedEntry(v, entries[v], data) else entries[v]
  }

  /** One more step of the opening loop refills the entry of `v` from its current text. */
  lemma LoadedOnStep(entries: map<string, string>, data: Dict, names: set<string>, v: string)
    requires v in entries
    ensures var now := LoadedOn(entries, data, names);
            LoadedOn(entries, data, names + {v}) == now[v := LoadedEntry(v, now[v], data)]
  {
  }

  /** Once every entry's variable is visited the loop has computed LoadedEntries. */
  lemma LoadedOnAll(entries: map<string, string>, data: Dict, names: set<string>)
    requires forall v | v in entries :: v in names
    ensures LoadedOn(entries, data, names) == LoadedEntries(entries, data)
  {
  }

  /**
   * Opening a file fills exactly the entries whose variable the blob holds
   * (the warhead count falling back on the legacy key), with the value's
   * `str()` where the validator accepts it and blank where it does not; the
   * other entries keep their text.
   */
  lemma LoadPopulates(entries: map<string, string>, data: Dict, v: string)
    requires v in entries
    ensures LoadedEntries(entries, data).Keys == entries.Keys
    ensures v in data && Validator(v, Show(data[v])) ==> LoadedEntries(entries, data)[v] == Show(data[v])
    ensures v in data && !Validator(v, Show(data[v])) ==> LoadedEntries(entries, data)[v] == ""
    ensures v == WarheadsKey && v !in data && LegacyWarheadsKey in data ==>
              LoadedEntries(entries, data)[v] == Inserted(v, Show(data[LegacyWarheadsKey]))
    ensures v !in data && (v != WarheadsKey || LegacyWarheadsKey !in data) ==>
              LoadedEntries(entries, data)[v] == entries[v]
  {
  }

  /** Opening a file keeps every entry acceptable to its validator. */
  lemma LoadKeepsValid(entries: map<string, string>, data: Dict)
    requires AllValid(entries)
    ensures AllValid(LoadedEntries(entries, data))
  {
  }

  /**
   * A value of the kind of variable `name`: an integer `int()` can read back
   * from its text, or a float.
   */
  predicate Suits(name: string, x: Value)
  {
    if name in IntVars then x.Int? && WithinDigitLimit(x.n) else x.Real? && IsFloatText(x.text)
  }

  /**
   * `int(str(n))` gives `n` back and `float(str(x))` gives a float back as it
   * was, and the validator lets the shown text into the entry.
   */
  lemma CoerceShown(name: string, x: Value)
    requires Suits(name, x)
    ensures Coerce(name, Show(x)) == Some(x)
    ensures Validator(name, Show(x)) && Show(x) != ""
  {
    if name in IntVars {
      ParseIntShow(x.n);
    }
    BareSignIsNotANumber("");
  }

  /**
   * An integer found under a float variable comes back as a float: opening and
   * saving turns the stored `n` into `float(n)`.
   */
  lemma IntUnderFloatVariable(name: string, n: int)
    requires name !in IntVars
    ensures Inserted(name, Show(Int(n))) == IntToString(n)
    ensures Coerce(name, Show(Int(n))) == Some(Real(IntToString(n)))
  {
    ShowIsIntText(n);
    IntTextIsFloatText(IntToString(n));
  }

  /**
   * Saving right after opening stores every value back as it was, provided
   * each entry whose variable the blob lacks was blank beforehand (opening
   * does not clear those; see StaleEntrySaved). Each variable's value must
   * either suit its kind or show as text its validator keeps out of the
   * entry, and the legacy warhead key must not be the only one present.
   */
  lemma {:induction false} SaveAfterLoadKeepsData(entries: map<string, string>, data: Dict)
    requires forall v | v in entries && v !in data :: entries[v] == ""
    requires forall v | v in entries && v in data :: Suits(v, data[v]) || !Validator(v, Show(data[v]))
    requires WarheadsKey in entries && LegacyWarheadsKey in data ==> WarheadsKey in data
    ensures Writable(LoadedEntries(entries, data))
    ensures Updated(data, LoadedEntries(entries, data)) == data
  {
    var loaded := LoadedEntries(entries, data);
    forall v | v in loaded && loaded[v] != ""
      ensures v in data && Coerce(v, loaded[v]) == Some(data[v])
    {
      if Suits(v, data[v]) {
        CoerceShown(v, data[v]);
      }
    }
    assert Written(loaded) <= data.Keys;
  }

  /**
   * Opening a second file keeps the text of an entry whose variable the new
   * blob lacks, and saving then writes that text into the new file, which
   * therefore differs from the blob it was opened with.
   */
  lemma StaleEntrySaved(entries: map<string, string>, data: Dict, v: string)
    requires v in entries && v !in data && entries[v] != ""
    requires v != WarheadsKey || LegacyWarheadsKey !in data
    requires Writable(LoadedEntries(entries, data))
    ensures LoadedEntries(entries, data)[v] == entries[v]
    ensures v in Updated(data, LoadedEntries(entries, data))
    ensures Updated(data, LoadedEntries(entries, data))[v] == Coerce(v, entries[v]).value
    ensures Updated(data, LoadedEntries(entries, data)) != data
  {
    var loaded := LoadedEntries(entries, data);
    assert loaded[v] == entries[v];
    assert v in Written(loaded);
  }

  /**
   * An instance: with `defcon` left at 5 from an earlier file, opening a file
   * whose blob is empty and saving it writes `{"defcon": 5}`.
   */
  lemma StaleDefconExample()
    ensures Writable(LoadedEntries(map["defcon" := "5"], map[]))
    ensures Updated(map[], LoadedEntries(map["defcon" := "5"], map[])) == map["defcon" := Int(5)]
  {
    var entries := map["defcon" := "5"];
    var loaded := LoadedEntries(entries, map[]);
    assert loaded == entries;
    assert "defcon" in IntVars;
    assert Unsigned(Strip("5")) == "5";
    assert ParseInt("5") == Some(5);
    assert Written(loaded) == {"defcon"};
  }

  /**
   * With only the legacy warhead key present, opening and saving adds the
   * count under the correct name and leaves the legacy key as it was.
   */
  lemma SaveAfterLoadCopiesLegacyWarheads(entries: map<string, string>, data: Dict)
    requires WarheadsKey in entries && WarheadsKey !in data && LegacyWarheadsKey in data
    requires Suits(WarheadsKey, data[LegacyWarheadsKey])
    requires LegacyWarheadsKey !in entries
    ensures LoadedEntries(entries, data)[WarheadsKey] == Show(data[LegacyWarheadsKey])
    ensures var loaded := LoadedEntries(entries, data);
            Writable(loaded) ==>
              && Updated(data, loaded)[WarheadsKey] == data[LegacyWarheadsKey]
              && Updated(data, loaded)[LegacyWarheadsKey] == data[LegacyWarheadsKey]
  {
    CoerceShown(WarheadsKey, data[LegacyWarheadsKey]);
  }

  /**
   * The editor's entries are keyed by the variable table, so saving never
   * writes the legacy warhead key.
   */
  lemma SaveKeepsLegacyKey(data: Dict, entries: map<string, string>)
    requires entries.Keys == set v | v in Variables
    requires Writable(entries) && LegacyWarheadsKey in data
    ensures LegacyWarheadsKey in Updated(data, entries)
    ensures Updated(data, entries)[LegacyWarheadsKey] == data[LegacyWarheadsKey]
  {
    TablesAgree();
    UpdatedKeepsUntouched(data, entries, LegacyWarheadsKey);
  }
}
