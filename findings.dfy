/** `delete_part` and `delete_assembly` say they fail while the row is still
    referenced, because of the schema's foreign keys. SQLite checks foreign
    keys only when a connection switches them on, which the store never does,
    so both deletes go through and leave link rows naming a row that no longer
    exists. This module exhibits that, and gives the deletes as documented:
    a referenced row is not deleted, and the call returns False, which is how
    the callers of these deletes read a refusal. These are proved to keep
    every link pointing at existing rows. */
module Findings {
  import opened Schema
  import opened Transitions

  /** Some link row names the part. */
  predicate PartInUse(t: Tables, partNumber: string)
  {
    exists k :: k in t.assemblyParts && k.1 == partNumber
  }

  /** Some link row, in either link table, names the assembly. */
  predicate AssemblyInUse(t: Tables, code: string)
  {
    || (exists k :: k in t.espAssemblies && k.1 == code)
    || (exists k :: k in t.assemblyParts && k.0 == code)
  }

  /** One part in one assembly, and that assembly in one unit: a store whose
      every link is sound. */
  function OnePartStore(): (t: Tables)
    ensures Consistent(t)
    ensures PartInUse(t, "P-1") && AssemblyInUse(t, "A-1")
    ensures ("U-1", "A-1") in t.espAssemblies
  {
    var t := Tables(map["P-1" := Part("Seal", "Seal", "Viton", 1.0, true, DefaultUom)],
                    map["A-1" := "Seal section"],
                    map[("A-1", "P-1") := DefaultLink],
                    map["U-1" := UnitSpec("ESP-1", "S", 100.0, 1000, 60.0, 500.0, 10, 1000.0)],
                    {("U-1", "A-1")});
    assert ("A-1", "P-1") in t.assemblyParts;
    t
  }

  /** As written, `delete_part` removes a part that an assembly still lists. */
  lemma DeletePartLeavesDanglingLink()
    ensures var t := OnePartStore();
      && DeletePart(t, "P-1").out
      && ("A-1", "P-1") in DeletePart(t, "P-1").after.assemblyParts
      && !Consistent(DeletePart(t, "P-1").after)
  {
    var u := DeletePart(OnePartStore(), "P-1").after;
    assert "P-1" !in u.parts && ("A-1", "P-1") in u.assemblyParts;
  }

  /** As written, `delete_assembly` removes an assembly that a unit still
      uses and that still has parts: both links are left behind. */
  lemma DeleteAssemblyLeavesDanglingLink()
    ensures var t := OnePartStore();
      && DeleteAssembly(t, "A-1").out
      && ("U-1", "A-1") in DeleteAssembly(t, "A-1").after.espAssemblies
      && ("A-1", "P-1") in DeleteAssembly(t, "A-1").after.assemblyParts
      && !Consistent(DeleteAssembly(t, "A-1").after)
  {
    var u := DeleteAssembly(OnePartStore(), "A-1").after;
    assert "A-1" !in u.assemblies && ("U-1", "A-1") in u.espAssemblies;
  }

  /** `delete_part` as its callers read it: False ("not found or in use")
      with nothing changed while a link names the part, otherwise the plain
      delete. */
  function DeletePartChecked(t: Tables, partNumber: string): (r: Step<bool>)
    ensures r.out <==> partNumber in t.parts && !PartInUse(t, partNumber)
    ensures !r.out ==> r.after == t
    ensures r.out ==> r == DeletePart(t, partNumber)
    ensures Consistent(t) ==> Consistent(r.after)
  {
    if partNumber in t.parts && PartInUse(t, partNumber) then Step(t, false)
    else DeletePart(t, partNumber)
  }

  /** `delete_assembly` as its callers read it: False with nothing changed
      while a unit or a part link names the assembly, otherwise the plain
      delete. */
  function DeleteAssemblyChecked(t: Tables, code: string): (r: Step<bool>)
    ensures r.out <==> code in t.assemblies && !AssemblyInUse(t, code)
    ensures !r.out ==> r.after == t
    ensures r.out ==> r == DeleteAssembly(t, code)
    ensures Consistent(t) ==> Consistent(r.after)
  {
    if code in t.assemblies && AssemblyInUse(t, code) then Step(t, false)
    else DeleteAssembly(t, code)
  }

  /** On an unused part, the checked delete and `force_delete_part` agree. */
  lemma CheckedDeleteMatchesForce(t: Tables, partNumber: string)
    requires partNumber in t.parts && !PartInUse(t, partNumber)
    ensures DeletePartChecked(t, partNumber).after == ForceDeletePart(t, partNumber).after
  {
    var u := ForceDeletePart(t, partNumber).after;
    assert u.assemblyParts == t.assemblyParts;
  }
}
