/**
 * The collaborators of the field-reference resolver, reduced to the
 * queries it makes of them: a class's declared fields, its interface
 * flag and its source's imports; a class library that recognises and
 * looks up class names; and a best-effort type resolver.
 */
module JavaModel {

  datatype Option<T> = None | Some(value: T)

  /** A declared field. `declaringClass` is the canonical name of the class
      that declares it; classes are identified by canonical name. */
  datatype JField = JField(name: string, isStatic: bool, declaringClass: string)

  /** A class as the resolver sees it: its fields in declaration order, whether it
      is an interface, and the import strings of the source file it comes from. */
  datatype JClass = JClass(canonicalName: string, fields: seq<JField>, isInterface: bool, imports: seq<string>)

  /** Every field of `c` names `c` as its declaring class. */
  predicate Declares(c: JClass) {
    forall f :: f in c.fields ==> f.declaringClass == c.canonicalName
  }

  /** `JavaClass.getFieldByName`: the first declared field with that name. */
  function FieldByName(c: JClass, name: string): (r: Option<JField>)
    ensures r.Some? ==> r.value in c.fields && r.value.name == name
  {
    FirstNamed(c.fields, name, 0)
  }

  /** The first field at or after position `from` with that name. */
  function FirstNamed(fields: seq<JField>, name: string, from: nat): (r: Option<JField>)
    ensures r.Some? ==> r.value in fields && r.value.name == name
    decreases |fields| - from
  {
    if from >= |fields| then None
    else if fields[from].name == name then Some(fields[from])
    else FirstNamed(fields, name, from + 1)
  }

  /** When several fields share the name, the one declared first is found;
      nothing is found only when no field has the name. */
  lemma {:induction false} FirstNamedIsFirst(fields: seq<JField>, name: string, from: nat, k: int)
    requires from <= k < |fields|
    ensures FirstNamed(fields, name, from).None? ==> fields[k].name != name
    ensures fields[k].name == name && (forall j :: from <= j < k ==> fields[j].name != name) ==>
              FirstNamed(fields, name, from) == Some(fields[k])
    decreases k - from
  {
    if from < k && fields[from].name != name {
      FirstNamedIsFirst(fields, name, from + 1, k);
    }
  }

  /** `ClassLibrary`: `references` is `hasClassReference`, `lookup` is
      `getJavaClass`, which for the names the resolver asks about always
      produces a class. */
  datatype ClassLibrary = ClassLibrary(references: string -> bool, lookup: string -> JClass)

  /** `TypeResolver.resolveJavaClass`: a class, or none. */
  datatype TypeResolver = TypeResolver(resolve: string -> Option<JClass>)
}
