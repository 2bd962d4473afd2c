/** The execution proxy's own logic: the language-to-filename map with its
    default, and the request body it forwards. The HTTP call is not part of
    this model. */
module Compiler {
  import opened Common

  /** The entries of the `fileNames` object literal. */
  const FileNames: map<string, string> := map[
    "java" := "Main.java",
    "python" := "main.py",
    "cpp" := "main.cpp",
    "c" := "main.c",
    "javascript" := "index.js"]

  const DefaultFileName := "main.txt"

  /** The file name the request uses for `language` (None is `undefined`):
      a listed language gets its own name, every other value `main.txt`. */
  function FileNameFor(language: Option<string>): (name: string)
    ensures name == "Main.java" <==> language == Some("java")
    ensures name == "main.py" <==> language == Some("python")
    ensures name == "main.cpp" <==> language == Some("cpp")
    ensures name == "main.c" <==> language == Some("c")
    ensures name == "index.js" <==> language == Some("javascript")
    ensures name == DefaultFileName <==> !(language.Some? && language.value in FileNames)
  {
    if language.Some? && language.value in FileNames then FileNames[language.value]
    else DefaultFileName
  }

  datatype SourceFile = SourceFile(name: string, content: Option<string>)

  /** The body posted to the execution service. */
  datatype ExecRequest = ExecRequest(language: Option<string>, files: seq<SourceFile>, stdin: string)

  /** The request carries the language unchanged, exactly one file named
      after the language and holding the code, and an empty stdin. */
  function BuildRequest(language: Option<string>, code: Option<string>): (r: ExecRequest)
    ensures r.language == language && r.stdin == ""
    ensures |r.files| == 1 && r.files[0].content == code
    ensures r.files[0].name in FileNames.Values || r.files[0].name == DefaultFileName
    ensures r.files[0].name == FileNameFor(language)
  {
    ExecRequest(language, [SourceFile(FileNameFor(language), code)], "")
  }

  // ------------------------------------------------- the lookup as written

  /** A JavaScript property value, as far as the lookup can produce one. */
  datatype JsValue = JsUndefined | JsString(s: string) | JsFunction | JsObject

  /** The names every plain object inherits from `Object.prototype`: all are
      methods except `__proto__`, which is the prototype object itself. */
  const InheritedNames: set<string> := {
    "constructor", "hasOwnProperty", "isPrototypeOf", "propertyIsEnumerable",
    "toLocaleString", "toString", "valueOf", "__defineGetter__",
    "__defineSetter__", "__lookupGetter__", "__lookupSetter__", "__proto__"}

  /** `fileNames[language]` on the object literal: own entries first, then
      the prototype chain; `undefined` is looked up as the key "undefined". */
  function LookupAsWritten(language: Option<string>): (r: JsValue)
    ensures var key := if language.Some? then language.value else "undefined";
            r.JsUndefined? <==> key !in FileNames && key !in InheritedNames
    ensures r.JsString? ==> r.s in FileNames.Values
  {
    var key := if language.Some? then language.value else "undefined";
    if key in FileNames then JsString(FileNames[key])
    else if key == "__proto__" then JsObject
    else if key in InheritedNames then JsFunction
    else JsUndefined
  }

  predicate JsTruthy(v: JsValue)
  {
    match v
    case JsUndefined => false
    case JsString(s) => s != ""
    case JsFunction => true
    case JsObject => true
  }

  /** `fileNames[language] || 'main.txt'` as the source writes it. */
  function FileNameAsWritten(language: Option<string>): (r: JsValue)
    ensures JsTruthy(r)
    ensures r.JsString? ==> r.s in FileNames.Values || r.s == DefaultFileName
  {
    var v := LookupAsWritten(language);
    if JsTruthy(v) then v else JsString(DefaultFileName)
  }

  /** For the language "toString" the lookup finds an inherited method, the
      `||` default never applies, and the file in the request gets a
      function instead of a name; the intended map gives `main.txt`. */
  lemma InheritedNameEscapesDefault()
    ensures FileNameAsWritten(Some("toString")) == JsFunction
    ensures FileNameAsWritten(Some("__proto__")) == JsObject
    ensures FileNameFor(Some("toString")) == DefaultFileName
  {
  }

  /** Apart from the inherited names, the source's lookup and the
      corrected map agree. */
  lemma AsWrittenAgreesElsewhere(language: Option<string>)
    requires !(language.Some? && language.value in InheritedNames)
    ensures FileNameAsWritten(language) == JsString(FileNameFor(language))
  {
    assert "undefined" !in FileNames;
  }
}
