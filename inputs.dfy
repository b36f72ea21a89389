/** What every input shares: the names derived from the file name, and the choice of
    reader. Whether the file exists and what its netCDF attributes are (if it opens
    as netCDF at all) are parameters; the file system and netCDF library are not modelled. */
module Inputs {
  import opened Common
  import opened Strings
  import opened Comps

  /** `Input.name`: the file name after its last `/`. */
  function Name(fullname: string): (name: string)
    ensures Lacks(name, '/')
    ensures |name| <= |fullname| && name == fullname[|fullname| - |name|..]
    ensures |name| < |fullname| ==> fullname[|fullname| - |name| - 1] == '/'
    ensures Lacks(fullname, '/') ==> name == fullname
  {
    SliceFrom(fullname, RFind(fullname, '/') + 1)
  }

  /** A name up to its last `.` (`name[:name.rfind('.')]`): a proper prefix of every
      non-empty name. */
  function Stem(name: string): (stem: string)
    ensures |stem| <= |name| && stem == name[..|stem|]
    ensures name != [] ==> |stem| < |name|
  {
    var i := RFind(name, '.');
    assert i < 0 && name != [] ==> SliceTo(name, i) == name[..|name| - 1];
    SliceTo(name, i)
  }

  /** `Input.shortname`: the stem of the file name. */
  function ShortName(fullname: string): (short: string)
    ensures |short| <= |Name(fullname)| && short == Name(fullname)[..|short|]
    ensures Name(fullname) != [] ==> |short| < |Name(fullname)|
  {
    Stem(Name(fullname))
  }

  /** With a `.` in the name, the short name is what precedes the last one. */
  lemma ShortNameDropsExtension(fullname: string)
    requires !Lacks(Name(fullname), '.')
    ensures exists ext | Lacks(ext, '.') :: Name(fullname) == ShortName(fullname) + "." + ext
  {
    var name := Name(fullname);
    var i := RFind(name, '.');
    assert i >= 0;
    var ext := name[i + 1..];
    assert Lacks(ext, '.');
    assert name == name[..i] + "." + ext;
  }

  /** Without a `.` the short name still loses the last character, because the index
      of the missing `.` is -1 and `name[:-1]` drops one character. */
  lemma ShortNameWithoutDot(fullname: string)
    requires Lacks(Name(fullname), '.') && Name(fullname) != []
    ensures ShortName(fullname) == Name(fullname)[..|Name(fullname)| - 1]
  {
    var name := Name(fullname);
    var i := RFind(name, '.');
    assert i < 0;
    assert SliceTo(name, -1) == name[..|name| - 1];
  }

  /** The readers `get_input` can choose. */
  datatype Format = NetcdfCf | CompsFormat | TextFormat

  /** `Text.is_valid`: any file is accepted as text. */
  predicate TextIsValid(fullname: string) { true }

  /** `get_input`: a missing file is an error; otherwise the CF reader, the COMPS reader
      and the text reader are tried in that order, and the first that accepts wins. */
  function GetInput(fullname: string, exists_: bool, file: Option<Attributes>): (r: Result<Format>)
    ensures !exists_ <==> r == Failure(FileNotFound)
  {
    if !exists_ then Failure(FileNotFound)
    else if CfIsValid(file) then Success(NetcdfCf)
    else if CompsIsValid(file) then Success(CompsFormat)
    else if TextIsValid(fullname) then Success(TextFormat)
    else Failure(UnrecognizedFormat)
  }

  /** Because the text test accepts everything, an existing file always gets a reader: the
      CF reader when it declares the CF conventions, the COMPS reader for any other file
      that opens as netCDF (unless the misspelt attribute pair makes that test raise), and
      the text reader for everything else. */
  lemma GetInputChoice(fullname: string, file: Option<Attributes>)
    ensures GetInput(fullname, true, file).Success?
    ensures GetInput(fullname, true, file).value == NetcdfCf <==> CfIsValid(file)
    ensures GetInput(fullname, true, file).value == CompsFormat <==>
      !CfIsValid(file) && file.Some? && !("Convensions" in file.value && "Convension" !in file.value)
    ensures GetInput(fullname, true, file).value == TextFormat <==> !CfIsValid(file) && !CompsIsValid(file)
  {
  }
}
