// The file-extension to MIME-type table of the HTTP file handler.

module MimeTypes {

  datatype Mapping = Mapping(extension: string, mimeType: string)

  /** The table, in the order it is scanned. */
  const MAPPINGS: seq<Mapping> := [
    Mapping("gif", "image/gif"),
    Mapping("htm", "text/html"),
    Mapping("html", "text/html"),
    Mapping("jpg", "image/jpeg"),
    Mapping("png", "image/png"),
    Mapping("css", "text/css"),
    Mapping("js", "application/x-javascript"),
    Mapping("svg", "image/svg+xml"),
    Mapping("woff", "application/font-woff"),
    Mapping("woff2", "application/font-woff2"),
    Mapping("otf", "application/x-font-opentype"),
    Mapping("eot", "application/vnd.ms-fontobject"),
    Mapping("ttf", "application/x-font-truetype"),
    Mapping("json", "application/json")
  ]

  const DEFAULT_TYPE: string := "text/plain"

  /** The type of the first mapping in table whose extension equals extension, else text/plain. */
  function FindType(table: seq<Mapping>, extension: string): (t: string)
    ensures (exists i :: 0 <= i < |table| && table[i].extension == extension) ==>
              exists i :: 0 <= i < |table| && table[i].extension == extension && t == table[i].mimeType &&
                forall j :: 0 <= j < i ==> table[j].extension != extension
    ensures (forall i :: 0 <= i < |table| ==> table[i].extension != extension) ==> t == DEFAULT_TYPE
    decreases |table|
  {
    if |table| == 0 then DEFAULT_TYPE
    else if table[0].extension == extension then table[0].mimeType
    else
      var t := FindType(table[1..], extension);
      assert forall i :: 1 <= i < |table| ==> table[i] == table[1..][i - 1];
      t
  }

  function ExtensionToType(extension: string): (t: string)
  {
    FindType(MAPPINGS, extension)
  }

  /** No extension appears twice in the table. */
  lemma ExtensionsDistinct()
    ensures forall i, j :: 0 <= i < j < |MAPPINGS| ==> MAPPINGS[i].extension != MAPPINGS[j].extension
  {
  }

  /** Every extension in the table maps to its own type. */
  lemma TableEntriesMap(i: nat)
    requires i < |MAPPINGS|
    ensures ExtensionToType(MAPPINGS[i].extension) == MAPPINGS[i].mimeType
  {
    ExtensionsDistinct();
  }

  /** An extension outside the table maps to text/plain. */
  lemma UnknownIsPlain(extension: string)
    requires forall i :: 0 <= i < |MAPPINGS| ==> MAPPINGS[i].extension != extension
    ensures ExtensionToType(extension) == DEFAULT_TYPE
  {
  }

  /** The result is always one of the table's types or text/plain. */
  lemma ResultIsKnownType(extension: string)
    ensures ExtensionToType(extension) == DEFAULT_TYPE ||
            exists i :: 0 <= i < |MAPPINGS| && ExtensionToType(extension) == MAPPINGS[i].mimeType
  {
  }

  /** Matching is exact and case-sensitive: upper-case and empty extensions are unknown. */
  lemma CaseSensitive()
    ensures ExtensionToType("JPG") == DEFAULT_TYPE
    ensures ExtensionToType("") == DEFAULT_TYPE
    ensures ExtensionToType("jpg") == "image/jpeg"
  {
    NotListed("JPG");
    NotListed("");
    UnknownIsPlain("JPG");
    UnknownIsPlain("");
    TableEntriesMap(3);
  }

  /** A string that is empty or starts with anything but a lower-case letter is not in the table. */
  lemma NotListed(extension: string)
    requires |extension| == 0 || !('a' <= extension[0] <= 'z')
    ensures forall i :: 0 <= i < |MAPPINGS| ==> MAPPINGS[i].extension != extension
  {
    LowerCaseExtensions();
  }

  /** Every extension in the table is non-empty and starts with a lower-case letter. */
  lemma LowerCaseExtensions()
    ensures forall i :: 0 <= i < |MAPPINGS| ==> |MAPPINGS[i].extension| > 0 && 'a' <= MAPPINGS[i].extension[0] <= 'z'
  {
  }
}
