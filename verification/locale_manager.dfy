/**
 The discovered locales of a project (core/localemanager.py, classes
 `LocaleEntry` and `LocaleManager`). Discovery itself walks the file
 system and is not modelled: a manager is given by its locales in
 discovery order.
 */
module LocaleManager {
  import opened Common
  import opened LocaleFiles

  /** One locale directory: its language code and its catalog files. */
  datatype LocaleEntry = LocaleEntry(languageCode: string, poFiles: seq<LocaleFile>)

  datatype Manager = Manager(locales: seq<LocaleEntry>)

  /** Position of the first locale with the given code. */
  function IndexOfCode(locales: seq<LocaleEntry>, code: string): (r: Option<nat>)
    ensures r.Some? ==> r.value < |locales| && locales[r.value].languageCode == code
    ensures r.Some? ==> forall j | 0 <= j < r.value :: locales[j].languageCode != code
    ensures r.None? <==> forall j | 0 <= j < |locales| :: locales[j].languageCode != code
  {
    if locales == [] then None
    else if locales[0].languageCode == code then Some(0)
    else
      match IndexOfCode(locales[1..], code)
      case None => None
      case Some(i) => Some(i + 1)
  }

  /** `get(lang_code)`: the first locale whose code is `code`, or nothing. */
  function Get(m: Manager, code: string): (r: Option<LocaleEntry>)
    ensures r.None? <==> forall j | 0 <= j < |m.locales| :: m.locales[j].languageCode != code
    ensures r.Some? ==>
              && r.value.languageCode == code
              && exists i | 0 <= i < |m.locales| ::
                   && m.locales[i] == r.value
                   && forall j | 0 <= j < i :: m.locales[j].languageCode != code
  {
    match IndexOfCode(m.locales, code)
    case None => None
    case Some(i) => Some(m.locales[i])
  }

  /** `languages()`: one code per locale, in discovery order. */
  function Languages(m: Manager): (r: seq<string>)
    ensures |r| == |m.locales|
    ensures forall i | 0 <= i < |m.locales| :: r[i] == m.locales[i].languageCode
  {
    seq(|m.locales|, i requires 0 <= i < |m.locales| => m.locales[i].languageCode)
  }

  /** The two queries agree: a code is found exactly when it is listed, and
      what is found is the locale at the first position where it is listed. */
  lemma GetAgreesWithLanguages(m: Manager, code: string)
    ensures Get(m, code).Some? <==> code in Languages(m)
    ensures forall i | 0 <= i < |m.locales| && Languages(m)[i] == code
              && (forall j | 0 <= j < i :: Languages(m)[j] != code) ::
              Get(m, code) == Some(m.locales[i])
  {
    var names := Languages(m);
    if code in names {
      var i :| 0 <= i < |names| && names[i] == code;
      assert m.locales[i].languageCode == code;
    }
    forall i | 0 <= i < |m.locales| && names[i] == code && (forall j | 0 <= j < i :: names[j] != code)
      ensures Get(m, code) == Some(m.locales[i])
    {
      var k := IndexOfCode(m.locales, code);
      assert m.locales[i].languageCode == code;
      assert forall j | 0 <= j < i :: m.locales[j].languageCode != code by {
        forall j | 0 <= j < i
          ensures m.locales[j].languageCode != code
        {
          assert names[j] != code;
        }
      }
    }
  }
}
