/**
 * The two directory steps that turn an unpacked bag into the layout
 * Archivematica expects (`move_objects_dir` and `create_structure` in
 * sip_assembly/routines_helpers.py and sip_assembly/library.py).
 */
module BagFiles {
  import opened Common

  /** The directories `create_structure` makes, in the order it makes them. */
  const StructureDirs: seq<string> := ["logs", "metadata", "submissionDocumentation"]

  /**
   * The tree of an unpacked bag, two levels deep: the names directly under
   * `data/`, under `data/objects/` and under `data/metadata/`. What lies
   * below an entry moves with it and is not tracked.
   */
  class BagTree {
    var data: set<string>
    var objects: set<string>
    var metadata: set<string>

    /** A directory that does not exist holds nothing. */
    ghost predicate Valid()
      reads this
    {
      && ("objects" !in data ==> objects == {})
      && ("metadata" !in data ==> metadata == {})
    }

    constructor (data: set<string>, objects: set<string>, metadata: set<string>)
      requires "objects" !in data ==> objects == {}
      requires "metadata" !in data ==> metadata == {}
      ensures Valid()
      ensures this.data == data && this.objects == objects && this.metadata == metadata
    {
      this.data, this.objects, this.metadata := data, objects, metadata;
    }

    /** `os.listdir` of `data/`: every entry once, in an order the model does not fix. */
    method ListData() returns (names: seq<string>)
      ensures forall n :: n in names <==> n in data
      ensures forall i, j :: 0 <= i < j < |names| ==> names[i] != names[j]
    {
      names := [];
      var rest := data;
      while rest != {}
        invariant rest <= data
        invariant forall n :: n in names <==> n in data && n !in rest
        invariant forall i, j :: 0 <= i < j < |names| ==> names[i] != names[j]
        decreases |rest|
      {
        var n :| n in rest;
        names := names + [n];
        rest := rest - {n};
      }
    }

    /**
     * `move_objects_dir`: make `data/objects` when it is missing, then rename
     * every other entry of `data/` into it, in listing order. `fails(name)`
     * says whether renaming that entry raises; the renaming stops there and
     * the failing entry is returned. `objects` itself is never moved.
     */
    method MoveObjectsDir(fails: string -> bool) returns (failed: Option<string>)
      requires Valid()
      modifies this
      ensures Valid()
      ensures "objects" in data && data <= old(data) + {"objects"}
      ensures objects == old(objects) + (old(data) - data)
      ensures forall n :: n in old(data) && n !in data ==> n != "objects" && !fails(n)
      ensures "metadata" in data ==> metadata == old(metadata)
      ensures failed.None? <==> forall n :: n in old(data) && n != "objects" ==> !fails(n)
      ensures failed.None? ==> data == {"objects"}
      ensures failed.Some? ==> failed.value in data && failed.value != "objects" && fails(failed.value)
    {
      if "objects" !in data {
        data := data + {"objects"};
      }
      var names := ListData();
      ghost var start := data;
      failed := None;
      for i := 0 to |names|
        invariant "objects" in data
        invariant forall n :: n in data <==> n in start && (n == "objects" || n !in names[..i])
        invariant objects == old(objects) + (start - data)
        invariant forall n :: n in names[..i] && n != "objects" ==> !fails(n)
        invariant metadata == if "metadata" in start && "metadata" !in data then {} else old(metadata)
      {
        var name := names[i];
        assert names[..i + 1] == names[..i] + [name];
        if name != "objects" {
          if fails(name) {
            return Some(name);
          }
          data := data - {name};
          objects := objects + {name};
          if name == "metadata" {
            metadata := {};
          }
        }
      }
      assert names[..|names|] == names;
    }

    /** Does directory `i` of `StructureDirs` exist? The third lies under `metadata`. */
    predicate StructureDirExists(i: nat)
      requires i < |StructureDirs|
      reads this
    {
      if i < 2 then StructureDirs[i] in data else "metadata" in data && "submissionDocumentation" in metadata
    }

    /** All three directories of the structure exist. */
    predicate HasStructure()
      reads this
    {
      "logs" in data && "metadata" in data && "submissionDocumentation" in metadata
    }

    /**
     * `create_structure`: make each of `data/logs`, `data/metadata` and
     * `data/metadata/submissionDocumentation` that does not exist yet.
     * `fails(name)` says whether making that directory raises; the step stops
     * there and returns the name.
     */
    method CreateStructure(fails: string -> bool) returns (failed: Option<string>)
      requires Valid()
      modifies this
      ensures Valid()
      ensures objects == old(objects)
      ensures old(data) <= data <= old(data) + {"logs", "metadata"}
      ensures old(metadata) <= metadata <= old(metadata) + {"submissionDocumentation"}
      ensures failed.None? ==> HasStructure()
      ensures failed.Some? ==> failed.value in StructureDirs && fails(failed.value)
      ensures failed.None? <==>
        && ("logs" !in old(data) ==> !fails("logs"))
        && ("metadata" !in old(data) ==> !fails("metadata"))
        && ("submissionDocumentation" !in old(metadata) ==> !fails("submissionDocumentation"))
      ensures old(HasStructure()) ==> failed.None? && data == old(data) && metadata == old(metadata)
    {
      failed := None;
      for i := 0 to |StructureDirs|
        invariant Valid() && objects == old(objects)
        invariant old(data) <= data <= old(data) + {"logs", "metadata"}
        invariant old(metadata) <= metadata <= old(metadata) + {"submissionDocumentation"}
        invariant i > 0 ==> "logs" in data
        invariant i > 1 ==> "metadata" in data
        invariant i > 2 ==> "submissionDocumentation" in metadata
        invariant old(HasStructure()) ==> data == old(data) && metadata == old(metadata)
        invariant i == 0 ==> data == old(data)
        invariant i <= 1 ==> data <= old(data) + {"logs"}
        invariant i <= 2 ==> metadata == old(metadata)
        invariant i > 0 ==> ("logs" !in old(data) ==> !fails("logs"))
        invariant i > 1 ==> ("metadata" !in old(data) ==> !fails("metadata"))
        invariant i > 2 ==> ("submissionDocumentation" !in old(metadata) ==> !fails("submissionDocumentation"))
      {
        if !StructureDirExists(i) {
          if fails(StructureDirs[i]) {
            return Some(StructureDirs[i]);
          }
          if i < 2 {
            data := data + {StructureDirs[i]};
          } else {
            data := data + {"metadata"};
            metadata := metadata + {"submissionDocumentation"};
          }
        }
      }
    }
  }
}
