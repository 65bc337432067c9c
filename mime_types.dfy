/**
 * Content types of uploaded files: the filename extension, the `mime.types`
 * resource that maps extensions to types, and the lookup with its fallback
 * to the type the upload part declared.
 */
module MimeTypes {
  import opened Wrappers
  import opened JavaStrings

  /**
   * The extension of a filename: the text after its last '.', or the whole
   * name when it has no '.' or ends with one.
   */
  function GetExtension(filename: string): (ext: string)
    ensures '.' !in filename ==> ext == filename
    ensures |filename| > 0 && filename[|filename| - 1] == '.' ==> ext == filename
    ensures '.' in filename && filename[|filename| - 1] != '.' ==>
      && 0 < |ext| < |filename|
      && '.' !in ext
      && ext == filename[|filename| - |ext|..]
      && filename[|filename| - |ext| - 1] == '.'
  {
    var pos := LastIndexOf(filename, '.');
    if pos == -1 || pos == |filename| - 1 then filename else filename[pos + 1..]
  }

  /**
   * What one line of `mime.types` registers: comment and empty lines nothing;
   * a line "type ext1 ext2 ..." maps its SECOND word to its first, whatever
   * follows (the loop over the remaining words always stores words[1]).
   */
  function LineMapping(line: string): Option<(string, string)>
  {
    if |line| > 0 && line[0] != '#' then
      var words := Words(line);
      if |words| >= 2 then Some((words[1], words[0])) else None
    else
      None
  }

  /** The extension-to-type table that the lines build, later lines overwriting earlier ones. */
  function MimeTable(lines: seq<string>): map<string, string>
    decreases |lines|
  {
    if lines == [] then map[]
    else
      var table := MimeTable(lines[..|lines| - 1]);
      match LineMapping(lines[|lines| - 1])
      case None => table
      case Some(m) => table[m.0 := m.1]
  }

  /** True when line i of the resource registers extension ext. */
  predicate Registers(lines: seq<string>, i: int, ext: string)
  {
    0 <= i < |lines| && LineMapping(lines[i]).Some? && LineMapping(lines[i]).value.0 == ext
  }

  /** Reads the resource line by line into a fresh table, as the first lookup does. */
  method ParseMimeTypes(lines: seq<string>) returns (table: map<string, string>)
    ensures table == MimeTable(lines)
  {
    table := map[];
    var i := 0;
    while i < |lines|
      invariant 0 <= i <= |lines|
      invariant table == MimeTable(lines[..i])
    {
      var line := lines[i];
      assert lines[..i + 1][..i] == lines[..i];
      if |line| > 0 {
        if line[0] != '#' {
          var words := Words(line);
          if |words| > 0 {
            var mimeType := words[0];
            var c := 1;
            while c < |words|
              invariant 1 <= c <= |words|
              invariant table == if c == 1 then MimeTable(lines[..i]) else MimeTable(lines[..i])[words[1] := mimeType]
            {
              table := table[words[1] := mimeType];
              c := c + 1;
            }
          }
        }
      }
      i := i + 1;
    }
    assert lines[..|lines|] == lines;
  }

  /** Every registered extension is the second word of some line of the resource. */
  lemma {:induction false} MimeTableKeys(lines: seq<string>, ext: string)
    requires ext in MimeTable(lines)
    ensures exists i :: Registers(lines, i, ext)
    decreases |lines|
  {
    var init := lines[..|lines| - 1];
    var m := LineMapping(lines[|lines| - 1]);
    if m.Some? && m.value.0 == ext {
      assert Registers(lines, |lines| - 1, ext);
    } else {
      MimeTableKeys(init, ext);
      var i :| Registers(init, i, ext);
      assert lines[i] == init[i];
      assert Registers(lines, i, ext);
    }
  }

  /** The type stored for an extension is that of the last line registering it. */
  lemma {:induction false} MimeTableLastWins(lines: seq<string>, i: nat, ext: string)
    requires Registers(lines, i, ext)
    requires forall j :: i < j < |lines| ==> !Registers(lines, j, ext)
    ensures ext in MimeTable(lines) && MimeTable(lines)[ext] == LineMapping(lines[i]).value.1
    decreases |lines|
  {
    var init := lines[..|lines| - 1];
    if i < |lines| - 1 {
      assert !Registers(lines, |lines| - 1, ext);
      forall j | i < j < |init| ensures !Registers(init, j, ext) {
        assert init[j] == lines[j];
        assert !Registers(lines, j, ext);
      }
      assert init[i] == lines[i];
      MimeTableLastWins(init, i, ext);
    }
  }

  /** Empty lines and comment lines leave the table as it is. */
  lemma SkippedLine(lines: seq<string>, line: string)
    requires |line| == 0 || line[0] == '#'
    ensures MimeTable(lines + [line]) == MimeTable(lines)
  {
    assert (lines + [line])[..|lines|] == lines;
  }

  /**
   * The content type of an upload: the type registered for the lower-cased
   * extension, else the type the part declared (possibly none).
   */
  function ContentTypeFor(mimeTypes: map<string, string>, filename: string, partContentType: Option<string>): (r: Option<string>)
  {
    var key := ToLower(GetExtension(filename));
    if key in mimeTypes then Some(mimeTypes[key]) else partContentType
  }

  /** With the table read from the resource, a registered extension yields its last registered type. */
  lemma ContentTypeRegistered(lines: seq<string>, filename: string, partContentType: Option<string>, i: nat)
    requires Registers(lines, i, ToLower(GetExtension(filename)))
    requires forall j :: i < j < |lines| ==> !Registers(lines, j, ToLower(GetExtension(filename)))
    ensures ContentTypeFor(MimeTable(lines), filename, partContentType) == Some(LineMapping(lines[i]).value.1)
  {
    MimeTableLastWins(lines, i, ToLower(GetExtension(filename)));
  }

  /** An extension no line registers falls back to the part's own content type. */
  lemma ContentTypeFallback(lines: seq<string>, filename: string, partContentType: Option<string>)
    requires forall i :: !Registers(lines, i, ToLower(GetExtension(filename)))
    ensures ContentTypeFor(MimeTable(lines), filename, partContentType) == partContentType
  {
    if ToLower(GetExtension(filename)) in MimeTable(lines) {
      MimeTableKeys(lines, ToLower(GetExtension(filename)));
    }
  }

  /**
   * The process-wide cache of the table: read from the `mime.types` resource
   * on the first lookup, reused afterwards.
   */
  class MimeTypeCache {
    /** The lines of the packaged `mime.types` resource. */
    const resource: seq<string>
    /** The cached table, None until the first lookup. */
    var mimeTypes: Option<map<string, string>>

    ghost predicate Valid()
      reads this
    {
      mimeTypes.Some? ==> mimeTypes.value == MimeTable(resource)
    }

    constructor (resource: seq<string>)
      ensures Valid() && this.resource == resource && mimeTypes.None?
    {
      this.resource := resource;
      mimeTypes := None;
    }

    /** Looks up the content type of a file, loading the table first if needed. */
    method GetContentType(filename: string, partContentType: Option<string>) returns (r: Option<string>)
      requires Valid()
      modifies this
      ensures Valid() && mimeTypes == Some(MimeTable(resource))
      ensures r == ContentTypeFor(MimeTable(resource), filename, partContentType)
    {
      if mimeTypes.None? {
        var newMap := ParseMimeTypes(resource);
        mimeTypes := Some(newMap);
      }
      var key := ToLower(GetExtension(filename));
      var table := mimeTypes.value;
      if key in table {
        r := Some(table[key]);
      } else {
        r := partContentType;
      }
    }
  }
}
