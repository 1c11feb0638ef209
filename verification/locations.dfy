/**
 * The location table: the all-or-nothing coverage gate decided at startup and
 * the join of a decoded frame with its source location.
 */
module Locations {
  import opened Wrappers
  import opened Paths
  import opened Decoding

  /** Where a log statement is: source file, line and module path. */
  datatype Location = Location(file: Path, line: nat, modulePath: string)

  /** The location table read from the ELF file, keyed by frame index. */
  type LocationMap = map<nat, Location>

  /** The metadata handed to the logger with a frame. */
  datatype Meta = Meta(file: Option<Path>, line: Option<nat>, modPath: Option<string>)

  /** Every index of the symbol table has an entry in the location table. */
  predicate Covers(table: Table, locs: LocationMap)
  {
    forall idx :: idx in table.indices ==> idx in locs
  }

  /**
   * The startup gate: the location table is kept only when it covers every
   * index of the symbol table, and dropped for the whole run otherwise.
   */
  function CoverageGate(table: Table, locs: LocationMap): (r: Option<LocationMap>)
    ensures r.Some? <==> table.indices <= locs.Keys
    ensures r.Some? ==> r.value == locs
  {
    if Covers(table, locs) then Some(locs) else None
  }

  /**
   * Once the gate has let a table through, looking up the index of any frame
   * the decoder can produce succeeds.
   */
  lemma GateLookupSucceeds(decode: Decoder, table: Table, locs: LocationMap, bytes: seq<byte>)
    requires ValidDecoder(decode, table)
    requires CoverageGate(table, locs).Some?
    requires decode(bytes, table).Ok?
    ensures decode(bytes, table).frame.index in CoverageGate(table, locs).value
  {
  }

  /**
   * The metadata of a frame with index `index`: all three fields absent when
   * the location table was dropped, all three present otherwise, with the file
   * relative to `cwd` when it lies under it and line and module passed through.
   */
  function Metadata(index: nat, locs: Option<LocationMap>, cwd: Path): (m: Meta)
    requires locs.Some? ==> index in locs.value
    ensures locs.None? <==> m == Meta(None, None, None)
    ensures locs.Some? ==> m.file.Some? && m.line.Some? && m.modPath.Some?
    ensures locs.Some? ==>
      var loc := locs.value[index];
      && (IsPrefix(cwd, loc.file) ==> cwd + m.file.value == loc.file)
      && (!IsPrefix(cwd, loc.file) ==> m.file.value == loc.file)
      && m.line.value == loc.line
      && m.modPath.value == loc.modulePath
  {
    match locs
    case None => Meta(None, None, None)
    case Some(known) =>
      var loc := known[index];
      Meta(Some(Relativize(loc.file, cwd)), Some(loc.line), Some(loc.modulePath))
  }

  /**
   * The join done for every decoded frame: look the frame up when the table
   * was kept, strip the working directory from its file when possible, and
   * hand on line and module.
   */
  method JoinLocation(frame: Frame, locs: Option<LocationMap>, cwd: Path)
    returns (file: Option<Path>, line: Option<nat>, modPath: Option<string>)
    requires locs.Some? ==> frame.index in locs.value
    ensures Meta(file, line, modPath) == Metadata(frame.index, locs, cwd)
    ensures locs.None? ==> file.None? && line.None? && modPath.None?
    ensures locs.Some? ==> file.Some? && line.Some? && modPath.Some?
  {
    var loc: Option<Location> := None;
    if locs.Some? {
      loc := Some(locs.value[frame.index]);
    }
    file, line, modPath := None, None, None;
    if loc.Some? {
      var relpath;
      match StripPrefix(loc.value.file, cwd) {
        case Some(rel) => relpath := rel;
        case None => relpath := loc.value.file;
      }
      file := Some(relpath);
      line := Some(loc.value.line);
      modPath := Some(loc.value.modulePath);
    }
  }

  /**
   * All or nothing: when one index of the symbol table has no location, no
   * frame gets any metadata, not even a frame whose own location is known.
   */
  lemma GateAllOrNothing(table: Table, locs: LocationMap, cwd: Path, missing: nat, index: nat)
    requires missing in table.indices && missing !in locs
    ensures Metadata(index, CoverageGate(table, locs), cwd) == Meta(None, None, None)
  {
  }

  /** Symbol table {1, 2, 3} with locations for 1 and 2 only: frames 1, 2 and 3 all go without location. */
  lemma GateExample(cwd: Path, loc: Location)
    ensures var locs := map[1 := loc, 2 := loc];
      forall index | index in {1, 2, 3} :: Metadata(index, CoverageGate(Table({1, 2, 3}), locs), cwd) == Meta(None, None, None)
  {
    var locs := map[1 := loc, 2 := loc];
    forall index | index in {1, 2, 3}
      ensures Metadata(index, CoverageGate(Table({1, 2, 3}), locs), cwd) == Meta(None, None, None)
    {
      GateAllOrNothing(Table({1, 2, 3}), locs, cwd, 3, index);
    }
  }
}
