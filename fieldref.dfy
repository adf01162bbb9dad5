/**
 * A dotted field reference such as `a.b.C.FIELD` found in an annotation value:
 * the table that splits it into segments, and the memoised, tiered lookup that
 * decides which prefix names a class and which segment names the field.
 */
module FieldRefs {
  import opened JavaStrings
  import opened JavaModel

  /** The separator table the constructor builds for `name`: -1, then the
      positions of the first n - 1 dots, then the length of the name, where n is
      the tokenizer's count of non-empty segments. With no segment at all the
      table is just the length. */
  function PartTable(name: string): seq<int> {
    TokensBound(name);
    var n := CountTokens(name);
    if n == 0 then [|name|] else [-1] + Dots(name)[..n - 1] + [|name|]
  }

  /** The shape every separator table has: it starts at -1 (when there is a
      segment), ends at the length of the name, increases strictly, and every
      entry in between is the position of a dot. */
  ghost predicate IsPartTable(name: string, t: seq<int>) {
    && |t| >= 1
    && t[|t| - 1] == |name|
    && (|t| >= 2 ==> t[0] == -1)
    && (forall i, j :: 0 <= i < j < |t| ==> t[i] < t[j])
    && (forall i :: 0 < i < |t| - 1 ==> 0 <= t[i] < |name| && name[t[i]] == '.')
  }

  lemma {:induction false} PartTableShape(name: string)
    ensures IsPartTable(name, PartTable(name))
    ensures |PartTable(name)| == CountTokens(name) + 1
  {
    TokensBound(name);
    var n := CountTokens(name);
    var t := PartTable(name);
    if n > 0 {
      DotsSpec(name);
      var d := Dots(name);
      forall i, j | 0 <= i < j < |t| ensures t[i] < t[j] {
        if 0 < i {
          assert t[i] == d[i - 1];
          if j < |t| - 1 {
            assert t[j] == d[j - 1];
          }
        }
      }
    }
  }

  /** The loop of the constructor: count the tokens, then find each dot after
      the previous one with `indexOf`, and close the table with the length. */
  method BuildParts(name: string) returns (table: seq<int>)
    ensures table == PartTable(name)
  {
    var length := CountTokens(name);
    var parts := new int[length + 1];
    parts[0] := -1;
    TokensBound(name);
    ghost var d := Dots(name);
    assert length <= |d| + 1;
    var i := 1;
    while i < length
      invariant 1 <= i <= if length == 0 then 1 else length
      invariant length <= |d| + 1
      invariant parts[0] == -1
      invariant forall k :: 1 <= k < i ==> parts[k] == d[k - 1]
    {
      NextDot(name, i - 2);
      parts[i] := IndexOf(name, '.', parts[i - 1] + 1);
      i := i + 1;
    }
    parts[length] := |name|;
    table := parts[..];
    if length > 0 {
      assert table == [-1] + d[..length - 1] + [|name|];
    } else {
      assert table == [|name|];
    }
  }

  /** What one resolution leaves behind: the field found (if any) and the
      index the class/field split is read from. */
  datatype Resolution = Resolution(field: Option<JField>, fieldIndex: int)

  class FieldRef {
    const name: string
    const parts: seq<int>
    const typeResolver: Option<TypeResolver>
    var declaringClass: Option<JClass>
    var classLibrary: Option<ClassLibrary>
    var field: Option<JField>
    var fieldIndex: int

    ghost predicate Valid() {
      parts == PartTable(name) && IsPartTable(name, parts)
    }

    constructor (name: string)
      ensures Valid() && this.name == name && typeResolver == None
      ensures declaringClass == None && classLibrary == None
      ensures field == None && fieldIndex == -1
    {
      var table := BuildParts(name);
      PartTableShape(name);
      this.name := name;
      parts := table;
      typeResolver := None;
      declaringClass := None;
      classLibrary := None;
      field := None;
      fieldIndex := -1;
    }

    /** The constructor that also keeps the declaring class's type resolver. */
    constructor WithResolver(name: string, resolver: TypeResolver)
      ensures Valid() && this.name == name && typeResolver == Some(resolver)
      ensures declaringClass == None && classLibrary == None
      ensures field == None && fieldIndex == -1
    {
      var table := BuildParts(name);
      PartTableShape(name);
      this.name := name;
      parts := table;
      typeResolver := Some(resolver);
      declaringClass := None;
      classLibrary := None;
      field := None;
      fieldIndex := -1;
    }

    method SetDeclaringClass(c: Option<JClass>)
      modifies this
      ensures declaringClass == c
      ensures classLibrary == old(classLibrary) && field == old(field) && fieldIndex == old(fieldIndex)
    {
      declaringClass := c;
    }

    method SetClassLibrary(lib: Option<ClassLibrary>)
      modifies this
      ensures classLibrary == lib
      ensures declaringClass == old(declaringClass) && field == old(field) && fieldIndex == old(fieldIndex)
    {
      classLibrary := lib;
    }

    // ---------------------------------------------------------------------
    // Splitting the name

    /** The number of segments is the tokenizer's count. */
    function PartCount(): (n: nat)
      requires Valid()
      ensures n == CountTokens(name)
    {
      PartTableShape(name);
      |parts| - 1
    }

    /** Segment `index`: the text between two consecutive table entries. */
    function NamePart(index: int): string
      requires Valid() && 0 <= index < PartCount()
    {
      name[parts[index] + 1..parts[index + 1]]
    }

    /** Segments 0..end with the dots between them. */
    function NamePrefix(end: int): string
      requires Valid() && 0 <= end < PartCount()
    {
      name[..parts[end + 1]]
    }

    function Parts(): (segs: seq<string>)
      requires Valid()
      ensures |segs| == PartCount()
      ensures forall i :: 0 <= i < |segs| ==> segs[i] == NamePart(i)
    {
      seq(PartCount(), i requires 0 <= i < PartCount() => NamePart(i))
    }

    /** The first prefix is the first segment. */
    lemma {:induction false} FirstPrefix()
      requires Valid() && PartCount() >= 1
      ensures NamePrefix(0) == NamePart(0)
    {
    }

    /** Extending a prefix by a dot and the next segment gives the next prefix. */
    lemma {:induction false} PrefixExtension(i: int)
      requires Valid() && 0 <= i && i + 1 < PartCount()
      ensures NamePrefix(i) + "." + NamePart(i + 1) == NamePrefix(i + 1)
    {
      var p, q := parts[i + 1], parts[i + 2];
      assert name[p] == '.';
      assert name[..q] == name[..p] + name[p..q];
      assert name[p..q] == [name[p]] + name[p + 1..q];
    }

    /** The longest prefix is the whole name. */
    lemma {:induction false} FullPrefix()
      requires Valid() && PartCount() >= 1
      ensures NamePrefix(PartCount() - 1) == name
    {
      assert name[..|name|] == name;
    }

    /** Joining the first k + 1 segments with dots gives prefix k. */
    lemma {:induction false} JoinPrefix(k: int)
      requires Valid() && 0 <= k < PartCount()
      ensures Join(Parts()[..k + 1]) == NamePrefix(k)
    {
      var segs := Parts();
      if k == 0 {
        assert segs[..1] == [NamePart(0)];
        FirstPrefix();
      } else {
        assert segs[..k + 1][..k] == segs[..k];
        JoinPrefix(k - 1);
        PrefixExtension(k - 1);
      }
    }

    /** Joining all segments with dots gives back the name, for every name
        with at least one segment (malformed ones included). */
    lemma {:induction false} JoinParts()
      requires Valid() && PartCount() >= 1
      ensures Join(Parts()) == name
    {
      var n := PartCount();
      JoinPrefix(n - 1);
      assert Parts()[..n] == Parts();
      FullPrefix();
    }

    /** For a well-formed name with d dots there are d + 1 segments and the
        table holds every dot. */
    lemma {:induction false} WellFormedTable()
      requires Valid() && WellFormed(name)
      ensures PartCount() == |Dots(name)| + 1
      ensures parts == [-1] + Dots(name) + [|name|]
    {
      TokensOfWellFormed(name);
      assert Dots(name)[..|Dots(name)|] == Dots(name);
    }

    /** No segment of a well-formed name contains a dot. */
    lemma {:induction false} PartHasNoDot(i: int)
      requires Valid() && WellFormed(name) && 0 <= i < PartCount()
      ensures '.' !in NamePart(i)
    {
      WellFormedTable();
      DotsSpec(name);
      var d := Dots(name);
      var part := NamePart(i);
      assert forall k :: 0 <= k < |part| ==> part[k] == name[parts[i] + 1 + k];
    }

    // ---------------------------------------------------------------------
    // Searching one class

    /** The field of `c` named by the first segment in [start, end) that `c`
        declares, or none; no other class is consulted. */
    function FieldIn(c: JClass, start: int, end: int): (r: Option<JField>)
      requires Valid()
      requires start < end ==> 0 <= start && end <= PartCount()
      ensures r.Some? ==> r.value in c.fields
      decreases end - start
    {
      if start >= end then None
      else
        match FieldByName(c, NamePart(start))
        case Some(f) => Some(f)
        case None => FieldIn(c, start + 1, end)
    }

    /** The search returns the field `c` declares for the first segment in
        [start, end) that it declares at all. */
    lemma {:induction false} FieldInFindsFirst(c: JClass, start: int, end: int, i: int)
      requires Valid() && 0 <= start <= i < end <= PartCount()
      requires FieldByName(c, NamePart(i)).Some?
      requires forall j :: start <= j < i ==> FieldByName(c, NamePart(j)).None?
      ensures FieldIn(c, start, end) == FieldByName(c, NamePart(i))
      decreases i - start
    {
      if start < i {
        FieldInFindsFirst(c, start + 1, end, i);
      }
    }

    /** The search finds nothing only when `c` declares none of the segments. */
    lemma {:induction false} FieldInNone(c: JClass, start: int, end: int, i: int)
      requires Valid() && 0 <= start <= i < end <= PartCount()
      requires FieldIn(c, start, end).None?
      ensures FieldByName(c, NamePart(i)).None?
      decreases i - start
    {
      if start < i {
        FieldInNone(c, start + 1, end, i);
      }
    }

    /** Whatever the search finds is the field `c` declares for some segment
        in [start, end); so when `c` declares none of them, it finds nothing. */
    lemma {:induction false} FieldInFromSegment(c: JClass, start: int, end: int)
      requires Valid() && (start < end ==> 0 <= start && end <= PartCount())
      ensures FieldIn(c, start, end).Some? ==>
                exists i :: start <= i < end && FieldIn(c, start, end) == FieldByName(c, NamePart(i))
      decreases end - start
    {
      if start < end && FieldByName(c, NamePart(start)).None? {
        FieldInFromSegment(c, start + 1, end);
      }
    }

    /** `resolveField`: the search loop with its early exit. */
    method ResolveField(c: JClass, start: int, end: int) returns (f: Option<JField>)
      requires Valid()
      requires start < end ==> 0 <= start && end <= PartCount()
      ensures f == FieldIn(c, start, end)
    {
      f := None;
      var i := start;
      while i < end
        invariant start <= i && (start < end ==> i <= end)
        invariant f.None? && FieldIn(c, start, end) == FieldIn(c, i, end)
      {
        f := FieldByName(c, NamePart(i));
        if f.Some? {
          assert FieldIn(c, i, end) == f;
          break;
        }
        assert FieldIn(c, i, end) == FieldIn(c, i + 1, end);
        i := i + 1;
      }
    }

    // ---------------------------------------------------------------------
    // The class-library tier

    /** The shortest prefix, from `from` on, that the library recognises. */
    function FirstReference(lib: ClassLibrary, from: nat): (r: Option<nat>)
      requires Valid()
      ensures r.Some? ==> from <= r.value < PartCount() && lib.references(NamePrefix(r.value))
      ensures r.Some? ==> forall i :: from <= i < r.value ==> !lib.references(NamePrefix(i))
      ensures r.None? ==> forall i :: from <= i < PartCount() ==> !lib.references(NamePrefix(i))
      decreases PartCount() - from
    {
      if from >= PartCount() then None
      else if lib.references(NamePrefix(from)) then Some(from)
      else FirstReference(lib, from + 1)
    }

    /** The first recognised prefix commits: the split moves past it and the
        field is searched only in the remaining segments of that class. */
    function LibraryTier(lib: ClassLibrary): Resolution
      requires Valid()
    {
      match FirstReference(lib, 0)
      case None => Resolution(None, 0)
      case Some(i) => Resolution(FieldIn(lib.lookup(NamePrefix(i)), i + 1, PartCount()), i + 1)
    }

    /** Once prefix j is the first one recognised, no longer prefix matters:
        any library that agrees on prefixes 0..j and on the class named by
        prefix j gives the same outcome, even when that class lacks the field. */
    lemma {:induction false} LibraryTierCommits(lib: ClassLibrary, other: ClassLibrary, j: nat)
      requires Valid()
      requires FirstReference(lib, 0) == Some(j)
      requires forall i :: 0 <= i <= j ==> other.references(NamePrefix(i)) == lib.references(NamePrefix(i))
      requires other.lookup(NamePrefix(j)) == lib.lookup(NamePrefix(j))
      ensures LibraryTier(other) == LibraryTier(lib)
      ensures LibraryTier(lib).fieldIndex == j + 1
    {
    }

    // ---------------------------------------------------------------------
    // The static-import tier

    /** Whether import `imp` is considered: it starts with "static" and its
        member (the text after the last dot) is "*" or the first segment. */
    predicate ImportMatches(imp: string)
      requires Valid()
    {
      && StartsWith(imp, "static")
      && (ImportMember(imp) == "*" || (PartCount() >= 1 && NamePrefix(0) == ImportMember(imp)))
    }

    /** Scanning `imp` raises no exception: the first segment exists when it is
        compared, and a considered import has its last dot at index 7 or later. */
    predicate ImportScannable(imp: string)
      requires Valid()
    {
      && (StartsWith(imp, "static") && ImportMember(imp) != "*" ==> PartCount() >= 1)
      && (ImportMatches(imp) ==> 7 <= LastIndexOf(imp, '.'))
    }

    /** The field import `imp` contributes: the member looked up by its own
        name on the imported class, kept when the class is an interface or the
        field is static. */
    function ImportAccepted(lib: ClassLibrary, imp: string): Option<JField>
      requires Valid()
    {
      if ImportMatches(imp) && 7 <= LastIndexOf(imp, '.') then
        var c := lib.lookup(ImportedClassName(imp));
        var f := FieldByName(c, ImportMember(imp));
        if f.Some? && (c.isInterface || f.value.isStatic) then f else None
      else None
    }

    /** The first import, in declaration order, that contributes a field. */
    function ImportScan(lib: ClassLibrary, imports: seq<string>): Option<JField>
      requires Valid()
    {
      if |imports| == 0 then None
      else
        match ImportAccepted(lib, imports[0])
        case Some(f) => Some(f)
        case None => ImportScan(lib, imports[1..])
    }

    /** The scan returns the field of the first import, in declaration order,
        that contributes one. */
    lemma {:induction false} ImportScanFindsFirst(lib: ClassLibrary, imports: seq<string>, k: int)
      requires Valid() && 0 <= k < |imports| && ImportAccepted(lib, imports[k]).Some?
      requires forall j :: 0 <= j < k ==> ImportAccepted(lib, imports[j]).None?
      ensures ImportScan(lib, imports) == ImportAccepted(lib, imports[k])
    {
      if k > 0 {
        var rest := imports[1..];
        assert ImportAccepted(lib, imports[0]).None?;
        assert ImportScan(lib, imports) == ImportScan(lib, rest);
        forall j | 0 <= j < k - 1
          ensures ImportAccepted(lib, rest[j]).None?
        {
          assert rest[j] == imports[j + 1];
        }
        assert rest[k - 1] == imports[k];
        ImportScanFindsFirst(lib, rest, k - 1);
      }
    }

    /** Whatever the scan finds is the field some import contributes; so when
        no import contributes one, it finds nothing. */
    lemma {:induction false} ImportScanFromImport(lib: ClassLibrary, imports: seq<string>)
      requires Valid()
      ensures ImportScan(lib, imports).Some? ==>
                exists k :: 0 <= k < |imports| && ImportScan(lib, imports) == ImportAccepted(lib, imports[k])
    {
      if |imports| > 0 && ImportAccepted(lib, imports[0]).None? {
        var rest := imports[1..];
        ImportScanFromImport(lib, rest);
        if ImportScan(lib, rest).Some? {
          var k :| 0 <= k < |rest| && ImportScan(lib, rest) == ImportAccepted(lib, rest[k]);
          assert rest[k] == imports[k + 1];
        }
      }
    }

    /** The scan finds nothing only when no import contributes a field. */
    lemma {:induction false} ImportScanNone(lib: ClassLibrary, imports: seq<string>, k: int)
      requires Valid() && ImportScan(lib, imports).None? && 0 <= k < |imports|
      ensures ImportAccepted(lib, imports[k]).None?
    {
      if k > 0 {
        var rest := imports[1..];
        assert ImportScan(lib, imports) == ImportScan(lib, rest);
        assert rest[k - 1] == imports[k];
        ImportScanNone(lib, rest, k - 1);
      }
    }

    /** One step of the scan from import k on. */
    lemma {:induction false} ImportScanStep(lib: ClassLibrary, imports: seq<string>, k: int)
      requires Valid() && 0 <= k < |imports|
      ensures ImportScan(lib, imports[k..]) ==
                if ImportAccepted(lib, imports[k]).Some? then ImportAccepted(lib, imports[k])
                else ImportScan(lib, imports[k + 1..])
      ensures ImportsScannable(lib, imports[k..]) ==>
                ImportScannable(imports[k])
                && (ImportAccepted(lib, imports[k]).None? ==> ImportsScannable(lib, imports[k + 1..]))
    {
      assert imports[k..][0] == imports[k] && imports[k..][1..] == imports[k + 1..];
    }

    /** The import scan up to its first hit raises no exception. */
    ghost predicate ImportsScannable(lib: ClassLibrary, imports: seq<string>)
      requires Valid()
    {
      |imports| == 0 ||
      (ImportScannable(imports[0]) && (ImportAccepted(lib, imports[0]).Some? || ImportsScannable(lib, imports[1..])))
    }

    /** Imports that do not start with "static" never affect the scan. */
    lemma {:induction false} NonStaticImportsIgnored(lib: ClassLibrary, imports: seq<string>)
      requires Valid()
      ensures ImportScan(lib, imports) == ImportScan(lib, StaticImports(imports))
    {
      if |imports| > 0 {
        NonStaticImportsIgnored(lib, imports[1..]);
        if StartsWith(imports[0], "static") {
          assert StaticImports(imports) == [imports[0]] + StaticImports(imports[1..]);
          assert StaticImports(imports)[1..] == StaticImports(imports[1..]);
        }
      }
    }

    /** A wildcard import looks up a member literally named "*", so it can
        contribute only such a field, whatever the first segment is. */
    lemma {:induction false} WildcardImportLooksUpStar(lib: ClassLibrary, imp: string)
      requires Valid()
      requires ImportMember(imp) == "*"
      ensures ImportAccepted(lib, imp).Some? ==> ImportAccepted(lib, imp).value.name == "*"
    {
    }

    // ---------------------------------------------------------------------
    // The type-resolver tier

    /** Prefix i is passed over: it names no class, or its class declares none
        of the later segments. */
    predicate ResolverMisses(res: TypeResolver, i: int)
      requires Valid() && 0 <= i < PartCount()
    {
      match res.resolve(NamePrefix(i))
      case None => true
      case Some(c) => FieldIn(c, i + 1, PartCount()).None?
    }

    /** Prefixes from `from` on, tried through the resolver; every prefix that
        names a class bumps the index, and the scan goes on past a class that
        lacks the field. */
    function ResolverTier(res: TypeResolver, from: nat, index: int): Resolution
      requires Valid()
      decreases PartCount() - from
    {
      if from >= PartCount() then Resolution(None, index)
      else
        match res.resolve(NamePrefix(from))
        case None => ResolverTier(res, from + 1, index)
        case Some(c) =>
          var f := FieldIn(c, from + 1, PartCount());
          if f.Some? then Resolution(f, index + 1) else ResolverTier(res, from + 1, index + 1)
    }

    /** The first prefix, from `from` on, that the resolver turns into a class
        declaring one of the later segments. */
    function FirstResolverHit(res: TypeResolver, from: nat): (r: Option<nat>)
      requires Valid()
      ensures r.Some? ==> from <= r.value < PartCount() && !ResolverMisses(res, r.value)
      decreases PartCount() - from
    {
      if from >= PartCount() then None
      else if !ResolverMisses(res, from) then Some(from)
      else FirstResolverHit(res, from + 1)
    }

    /** Every prefix before the hit, or every prefix at all when there is
        none, is passed over. */
    lemma {:induction false} FirstResolverHitMisses(res: TypeResolver, from: nat)
      requires Valid()
      ensures FirstResolverHit(res, from).Some? ==>
                forall i :: from <= i < FirstResolverHit(res, from).value ==> ResolverMisses(res, i)
      ensures FirstResolverHit(res, from).None? ==> forall i :: from <= i < PartCount() ==> ResolverMisses(res, i)
      decreases PartCount() - from
    {
      if from < PartCount() && ResolverMisses(res, from) {
        FirstResolverHitMisses(res, from + 1);
      }
    }

    /** The field the resolver tier finds is the one declared by the class of
        the first prefix that is not passed over, whatever the starting index. */
    lemma {:induction false} ResolverTierHit(res: TypeResolver, from: nat, index: int, hit: nat)
      requires Valid() && FirstResolverHit(res, from) == Some(hit)
      ensures res.resolve(NamePrefix(hit)).Some?
      ensures ResolverTier(res, from, index).field == FieldIn(res.resolve(NamePrefix(hit)).value, hit + 1, PartCount())
      decreases PartCount() - from
    {
      if from < hit {
        var next := if res.resolve(NamePrefix(from)).Some? then index + 1 else index;
        assert ResolverTier(res, from, index) == ResolverTier(res, from + 1, next);
        ResolverTierHit(res, from + 1, next, hit);
      }
    }

    /** When every prefix is passed over, the resolver tier finds nothing. */
    lemma {:induction false} ResolverTierMiss(res: TypeResolver, from: nat, index: int)
      requires Valid() && FirstResolverHit(res, from).None?
      ensures ResolverTier(res, from, index).field.None?
      decreases PartCount() - from
    {
      if from < PartCount() {
        var next := if res.resolve(NamePrefix(from)).Some? then index + 1 else index;
        assert ResolverTier(res, from, index) == ResolverTier(res, from + 1, next);
        ResolverTierMiss(res, from + 1, next);
      }
    }

    /** The number of prefixes from `from` on that the resolver turns into a class. */
    function Resolving(res: TypeResolver, from: nat): nat
      requires Valid()
      decreases PartCount() - from
    {
      if from >= PartCount() then 0
      else (if res.resolve(NamePrefix(from)).Some? then 1 else 0) + Resolving(res, from + 1)
    }

    /** The index never shrinks. When the resolver tier finds nothing, it has
        grown by exactly the number of prefixes that named a class; on a hit, by
        the number of such prefixes up to and including the hit. */
    lemma {:induction false} ResolverTierCount(res: TypeResolver, from: nat, index: int)
      requires Valid()
      ensures ResolverTier(res, from, index).fieldIndex >= index
      ensures ResolverTier(res, from, index).field.Some? ==> ResolverTier(res, from, index).fieldIndex > index
      ensures ResolverTier(res, from, index).field.None? ==>
                ResolverTier(res, from, index).fieldIndex == index + Resolving(res, from)
      ensures FirstResolverHit(res, from).Some? ==>
                ResolverTier(res, from, index).fieldIndex
                == index + Resolving(res, from) - Resolving(res, FirstResolverHit(res, from).value + 1)
      decreases PartCount() - from
    {
      if from < PartCount() {
        ResolverTierCount(res, from + 1, index);
        ResolverTierCount(res, from + 1, index + 1);
      }
    }

    /** The field the resolver tier finds does not depend on the starting
        index, and the final index moves with it. */
    lemma {:induction false} ResolverTierShift(res: TypeResolver, from: nat, index: int, other: int)
      requires Valid()
      ensures ResolverTier(res, from, other).field == ResolverTier(res, from, index).field
      ensures ResolverTier(res, from, other).fieldIndex - other == ResolverTier(res, from, index).fieldIndex - index
      decreases PartCount() - from
    {
      if from < PartCount() {
        ResolverTierShift(res, from + 1, index, other);
        ResolverTierShift(res, from + 1, index + 1, other + 1);
      }
    }

    // ---------------------------------------------------------------------
    // The whole lookup

    /** Tiers 1 to 3 on the declaring class `c`: its own fields over every
        segment; then the class-library prefix scan; then the static imports. */
    function EarlyTiers(c: JClass, lib: Option<ClassLibrary>): Resolution
      requires Valid()
    {
      var own := FieldIn(c, 0, PartCount());
      if own.Some? then Resolution(own, 0)
      else if lib.None? then Resolution(None, 0)
      else
        var fromLibrary := LibraryTier(lib.value);
        if fromLibrary.field.Some? then fromLibrary
        else Resolution(ImportScan(lib.value, c.imports), fromLibrary.fieldIndex)
    }

    /** Tiers 1 to 3 run only with a declaring class and a negative index. */
    function Early(dc: Option<JClass>, lib: Option<ClassLibrary>, cached: Resolution): Resolution
      requires Valid()
    {
      if cached.fieldIndex < 0 && dc.Some? then EarlyTiers(dc.value, lib) else cached
    }

    /** `getField` from the state (`dc`, `lib`, `cached`): tier 4 runs whenever
        no field is known after the first three. */
    function Resolve(dc: Option<JClass>, lib: Option<ClassLibrary>, cached: Resolution): Resolution
      requires Valid()
    {
      var early := Early(dc, lib, cached);
      if early.field.Some? || typeResolver.None? then early
      else ResolverTier(typeResolver.value, 0, early.fieldIndex)
    }

    /** `getField` from this state raises no exception: the import scan is
        safe, and a type resolver is present whenever tier 4 has a prefix to try. */
    ghost predicate Resolvable(dc: Option<JClass>, lib: Option<ClassLibrary>, cached: Resolution)
      requires Valid()
    {
      && ((cached.fieldIndex < 0 && dc.Some? && FieldIn(dc.value, 0, PartCount()).None? && lib.Some?
           && LibraryTier(lib.value).field.None?) ==> ImportsScannable(lib.value, dc.value.imports))
      && (Early(dc, lib, cached).field.None? && PartCount() >= 1 ==> typeResolver.Some?)
    }

    /** Tier 1 comes first: a segment the declaring class declares itself wins
        over every other tier, and the split stays at 0. */
    lemma {:induction false} OwnFieldsFirst(dc: JClass, lib: Option<ClassLibrary>, cached: Resolution)
      requires Valid() && cached.fieldIndex < 0
      requires FieldIn(dc, 0, PartCount()).Some?
      ensures Resolve(Some(dc), lib, cached) == Resolution(FieldIn(dc, 0, PartCount()), 0)
    {
    }

    /** Tier 3 is reached only when tiers 1 and 2 find nothing; a field from a
        static import keeps the index tier 2 left behind. */
    lemma {:induction false} ImportsAfterLibrary(dc: JClass, lib: ClassLibrary, cached: Resolution)
      requires Valid() && cached.fieldIndex < 0
      requires FieldIn(dc, 0, PartCount()).None? && LibraryTier(lib).field.None?
      requires ImportScan(lib, dc.imports).Some?
      ensures Resolve(Some(dc), Some(lib), cached) == Resolution(ImportScan(lib, dc.imports), LibraryTier(lib).fieldIndex)
    {
    }

    /** A field already cached while the index is non-negative (or with no
        declaring class) is returned as it is. */
    lemma {:induction false} FoundFieldKept(dc: Option<JClass>, lib: Option<ClassLibrary>, cached: Resolution)
      requires Valid() && (cached.fieldIndex >= 0 || dc.None?) && cached.field.Some?
      ensures Resolve(dc, lib, cached) == cached
    {
    }

    /** After one lookup from a reachable state (index -1 or more) the index
        is still -1 or more, and non-negative once a field has been found or a
        declaring class was searched; tiers 1 to 3 will not run again. */
    lemma {:induction false} ResolveSettles(dc: Option<JClass>, lib: Option<ClassLibrary>, cached: Resolution)
      requires Valid() && cached.fieldIndex >= -1
      ensures Resolve(dc, lib, cached).fieldIndex >= -1
      ensures dc.Some? ==> Resolve(dc, lib, cached).fieldIndex >= 0
      ensures Resolve(dc, lib, cached).field.Some? && cached.field.None? ==> Resolve(dc, lib, cached).fieldIndex >= 0
      ensures Early(dc, lib, Resolve(dc, lib, cached)) == Resolve(dc, lib, cached)
      ensures Resolve(dc, lib, cached).field.None? ==> Early(dc, lib, cached).field.None?
    {
      var early := Early(dc, lib, cached);
      EarlyIndex(dc, lib, cached);
      if early.field.None? && typeResolver.Some? {
        ResolverTierCount(typeResolver.value, 0, early.fieldIndex);
      }
    }

    /** Tiers 1 to 3 leave a non-negative index whenever they run. */
    lemma {:induction false} EarlyIndex(dc: Option<JClass>, lib: Option<ClassLibrary>, cached: Resolution)
      requires Valid() && cached.fieldIndex >= -1
      ensures Early(dc, lib, cached).fieldIndex >= -1
      ensures dc.Some? ==> Early(dc, lib, cached).fieldIndex >= 0
      ensures Early(dc, lib, cached).field.Some? && cached.field.None? ==> Early(dc, lib, cached).fieldIndex >= 0
    {
      if cached.fieldIndex < 0 && dc.Some? {
        EarlyTiersIndex(dc.value, lib);
      }
    }

    /** Tiers 1 to 3 always leave a non-negative index. */
    lemma {:induction false} EarlyTiersIndex(c: JClass, lib: Option<ClassLibrary>)
      requires Valid()
      ensures EarlyTiers(c, lib).fieldIndex >= 0
    {
      if lib.Some? {
        match FirstReference(lib.value, 0)
        case None =>
        case Some(i) =>
      }
    }

    /** Once a field has been found it is kept: asking again from the new
        state changes nothing. A failed lookup stays failed, but tier 4 runs
        again and the index grows by the number of prefixes the resolver turns
        into a class. */
    lemma {:induction false} ResolutionMemoised(dc: Option<JClass>, lib: Option<ClassLibrary>, cached: Resolution)
      requires Valid() && cached.fieldIndex >= -1 && Resolvable(dc, lib, cached)
      ensures Resolvable(dc, lib, Resolve(dc, lib, cached))
      ensures Resolve(dc, lib, Resolve(dc, lib, cached)).field == Resolve(dc, lib, cached).field
      ensures Resolve(dc, lib, cached).field.Some? ==> Resolve(dc, lib, Resolve(dc, lib, cached)) == Resolve(dc, lib, cached)
      ensures Resolve(dc, lib, cached).field.None? && typeResolver.Some? ==>
                Resolve(dc, lib, Resolve(dc, lib, cached)).fieldIndex
                == Resolve(dc, lib, cached).fieldIndex + Resolving(typeResolver.value, 0)
    {
      var s := Resolve(dc, lib, cached);
      ResolveSettles(dc, lib, cached);
      if s.field.None? && typeResolver.Some? {
        var res := typeResolver.value;
        var early := Early(dc, lib, cached);
        assert s == ResolverTier(res, 0, early.fieldIndex);
        ResolverTierShift(res, 0, early.fieldIndex, s.fieldIndex);
        ResolverTierCount(res, 0, s.fieldIndex);
      }
    }

    // ---------------------------------------------------------------------
    // The class part and the field part

    /** The text before the separator at `index`. */
    function ClassPartAt(index: int): string
      requires Valid() && 0 <= index < |parts| && parts[index] >= 0
    {
      name[..parts[index]]
    }

    /** The text after the separator at `index`. */
    function FieldPartAt(index: int): string
      requires Valid() && 0 <= index < |parts| && parts[index] < |name|
    {
      name[parts[index] + 1..]
    }

    /** At a separator past the first, the class part is the prefix ending just
        before it, and the class part, a dot and the field part make up the name. */
    lemma {:induction false} SplitAt(index: int)
      requires Valid() && 1 <= index < PartCount()
      ensures ClassPartAt(index) == NamePrefix(index - 1)
      ensures ClassPartAt(index) + "." + FieldPartAt(index) == name
    {
      var p := parts[index];
      assert name[p] == '.';
      assert name == name[..p] + name[p..];
      assert name[p..] == [name[p]] + name[p + 1..];
    }

    /** After a class-library hit on prefix j the split is at separator j + 1:
        the class part is prefix j and the field part is the rest of the name. */
    lemma {:induction false} LibraryTierSplit(dc: JClass, lib: ClassLibrary, cached: Resolution, j: nat)
      requires Valid() && cached.fieldIndex < 0
      requires FieldIn(dc, 0, PartCount()).None? && FirstReference(lib, 0) == Some(j)
      requires FieldIn(lib.lookup(NamePrefix(j)), j + 1, PartCount()).Some?
      ensures Resolve(Some(dc), Some(lib), cached) == LibraryTier(lib)
      ensures LibraryTier(lib).fieldIndex == j + 1 < PartCount()
      ensures ClassPartAt(j + 1) == NamePrefix(j)
      ensures ClassPartAt(j + 1) + "." + FieldPartAt(j + 1) == name
    {
      SplitAt(j + 1);
    }

    /** When tier 2 commits on prefix j but that class lacks the field, a field
        from a static import keeps the split at j + 1: the class part is then
        prefix j, which names the library's class, not the imported one. */
    lemma {:induction false} ImportAfterCommitSplit(dc: JClass, lib: ClassLibrary, cached: Resolution, j: nat)
      requires Valid() && cached.fieldIndex < 0
      requires FieldIn(dc, 0, PartCount()).None? && FirstReference(lib, 0) == Some(j)
      requires FieldIn(lib.lookup(NamePrefix(j)), j + 1, PartCount()).None?
      requires ImportScan(lib, dc.imports).Some?
      ensures Resolve(Some(dc), Some(lib), cached) == Resolution(ImportScan(lib, dc.imports), j + 1)
      ensures ClassPartAt(j + 1) == NamePrefix(j)
    {
    }

    // ---------------------------------------------------------------------
    // Rendering

    /** `toString` on the state (`dc`, `f`): the owning class's name and the
        field's when the field belongs to another class, the raw name otherwise. */
    function Display(dc: Option<JClass>, f: Option<JField>): string
      requires f.Some? ==> dc.Some?
    {
      if f.Some? && dc.value.canonicalName != f.value.declaringClass then
        f.value.declaringClass + "." + f.value.name
      else name
    }

    /** A field found among the declaring class's own fields renders as the raw name. */
    lemma {:induction false} OwnFieldDisplaysName(dc: JClass, lib: Option<ClassLibrary>, cached: Resolution)
      requires Valid() && Declares(dc) && cached.fieldIndex < 0
      requires FieldIn(dc, 0, PartCount()).Some?
      ensures Display(Some(dc), Resolve(Some(dc), lib, cached).field) == name
    {
    }

    /** A field found on another class through the library renders as that
        class's canonical name, a dot and the field's name. */
    lemma {:induction false} LibraryFieldDisplaysOwner(dc: JClass, lib: ClassLibrary, cached: Resolution)
      requires Valid() && cached.fieldIndex < 0
      requires FieldIn(dc, 0, PartCount()).None? && FirstReference(lib, 0).Some?
      requires var owner := lib.lookup(NamePrefix(FirstReference(lib, 0).value));
               Declares(owner) && owner.canonicalName != dc.canonicalName
      ensures LibraryTier(lib).field.Some? ==>
                Display(Some(dc), Resolve(Some(dc), Some(lib), cached).field)
                == lib.lookup(NamePrefix(FirstReference(lib, 0).value)).canonicalName + "." + LibraryTier(lib).field.value.name
    {
    }

    // ---------------------------------------------------------------------
    // The operations on the object

    /** The cached outcome. */
    function Cached(): Resolution
      reads this
    {
      Resolution(field, fieldIndex)
    }

    /** The loop of tier 2: the first prefix the library recognises commits
        the split, and the field is searched only in that class. */
    method ScanLibrary(lib: ClassLibrary) returns (r: Resolution)
      requires Valid()
      ensures r == LibraryTier(lib)
    {
      r := Resolution(None, 0);
      var i := 0;
      while i < |parts| - 1
        invariant 0 <= i <= PartCount()
        invariant FirstReference(lib, 0) == FirstReference(lib, i)
      {
        var className := NamePrefix(i);
        if lib.references(className) {
          var javaClass := lib.lookup(className);
          var f := ResolveField(javaClass, i + 1, |parts| - 1);
          r := Resolution(f, i + 1);
          return;
        }
        i := i + 1;
      }
    }

    /** The loop of tier 3: the first static import that contributes a field. */
    method ScanImports(lib: ClassLibrary, imports: seq<string>) returns (f: Option<JField>)
      requires Valid() && ImportsScannable(lib, imports)
      ensures f == ImportScan(lib, imports)
    {
      f := None;
      var k := 0;
      while k < |imports|
        invariant 0 <= k <= |imports|
        invariant ImportScan(lib, imports) == ImportScan(lib, imports[k..])
        invariant ImportsScannable(lib, imports[k..])
      {
        var imp := imports[k];
        ImportScanStep(lib, imports, k);
        if StartsWith(imp, "static") {
          var member := ImportMember(imp);
          if member == "*" || NamePrefix(0) == member {
            var className := ImportedClassName(imp);
            var javaClass := lib.lookup(className);
            var tmpField := FieldByName(javaClass, member);
            if tmpField.Some? && (javaClass.isInterface || tmpField.value.isStatic) {
              assert ImportAccepted(lib, imp) == tmpField;
              f := tmpField;
              return;
            }
          }
        }
        assert ImportAccepted(lib, imp).None?;
        k := k + 1;
      }
    }

    /** Tiers 1 to 3 for the declaring class `c`, in order, each only when the
        previous ones found nothing. */
    method ScanDeclaringClass(c: JClass, lib: Option<ClassLibrary>) returns (r: Resolution)
      requires Valid()
      requires FieldIn(c, 0, PartCount()).None? && lib.Some? && LibraryTier(lib.value).field.None? ==>
                 ImportsScannable(lib.value, c.imports)
      ensures r == EarlyTiers(c, lib)
    {
      var own := ResolveField(c, 0, |parts| - 1);
      r := Resolution(own, 0);
      if r.field.None? && lib.Some? {
        r := ScanLibrary(lib.value);
      }
      if r.field.None? && lib.Some? {
        var imported := ScanImports(lib.value, c.imports);
        r := r.(field := imported);
      }
    }

    /** The loop of tier 4: every prefix the resolver turns into a class bumps
        the index; the first class declaring a later segment ends the scan. */
    method ScanResolver(res: TypeResolver, index: int) returns (r: Resolution)
      requires Valid()
      ensures r == ResolverTier(res, 0, index)
    {
      r := Resolution(None, index);
      var i := 0;
      while i < |parts| - 1
        invariant 0 <= i <= PartCount()
        invariant r.field.None?
        invariant ResolverTier(res, 0, index) == ResolverTier(res, i, r.fieldIndex)
      {
        var className := NamePrefix(i);
        var javaClass := res.resolve(className);
        if javaClass.Some? {
          r := r.(fieldIndex := r.fieldIndex + 1);
          var f := ResolveField(javaClass.value, i + 1, |parts| - 1);
          if f.Some? {
            r := r.(field := f);
            return;
          }
        }
        i := i + 1;
      }
    }

    /** `getField`: runs the tiers the state calls for and caches the outcome. */
    method GetField() returns (r: Option<JField>)
      requires Valid() && Resolvable(declaringClass, classLibrary, Cached())
      modifies this
      ensures Cached() == old(Resolve(declaringClass, classLibrary, Cached()))
      ensures r == field
      ensures declaringClass == old(declaringClass) && classLibrary == old(classLibrary)
    {
      var dc := declaringClass;
      if fieldIndex < 0 && dc.Some? {
        var early := ScanDeclaringClass(dc.value, classLibrary);
        field, fieldIndex := early.field, early.fieldIndex;
      }
      if field.None? && 0 < |parts| - 1 {
        var fromResolver := ScanResolver(typeResolver.value, fieldIndex);
        field, fieldIndex := fromResolver.field, fromResolver.fieldIndex;
      }
      r := field;
    }

    /** `getClassPart`: the text before the split, once a field is known. */
    method ClassPart() returns (r: Option<string>)
      requires Valid() && Resolvable(declaringClass, classLibrary, Cached())
      requires var s := Resolve(declaringClass, classLibrary, Cached());
               s.field.Some? ==> 0 <= s.fieldIndex < |parts| && parts[s.fieldIndex] >= 0
      modifies this
      ensures Cached() == old(Resolve(declaringClass, classLibrary, Cached()))
      ensures r == if field.Some? then Some(ClassPartAt(fieldIndex)) else None
      ensures declaringClass == old(declaringClass) && classLibrary == old(classLibrary)
    {
      var f := GetField();
      r := None;
      if f.Some? {
        r := Some(name[..parts[fieldIndex]]);
      }
    }

    /** `getFieldPart`: the text after the split, once a field is known. */
    method FieldPart() returns (r: Option<string>)
      requires Valid() && Resolvable(declaringClass, classLibrary, Cached())
      requires var s := Resolve(declaringClass, classLibrary, Cached());
               s.field.Some? ==> 0 <= s.fieldIndex < |parts| && parts[s.fieldIndex] < |name|
      modifies this
      ensures Cached() == old(Resolve(declaringClass, classLibrary, Cached()))
      ensures r == if field.Some? then Some(FieldPartAt(fieldIndex)) else None
      ensures declaringClass == old(declaringClass) && classLibrary == old(classLibrary)
    {
      var f := GetField();
      r := None;
      if f.Some? {
        r := Some(name[parts[fieldIndex] + 1..]);
      }
    }

    /** `toString`: resolves, then renders. */
    method ToString() returns (s: string)
      requires Valid() && Resolvable(declaringClass, classLibrary, Cached())
      requires Resolve(declaringClass, classLibrary, Cached()).field.Some? ==> declaringClass.Some?
      modifies this
      ensures Cached() == old(Resolve(declaringClass, classLibrary, Cached()))
      ensures declaringClass == old(declaringClass) && classLibrary == old(classLibrary)
      ensures s == Display(declaringClass, field)
    {
      var f := GetField();
      if f.Some? && declaringClass.value.canonicalName != f.value.declaringClass {
        s := f.value.declaringClass + "." + f.value.name;
      } else {
        s := name;
      }
    }
  }

  /** The member an import names: the text after its last dot. */
  function ImportMember(imp: string): string {
    imp[LastIndexOf(imp, '.') + 1..]
  }

  /** The class an import names: the trimmed text from index 7 to its last dot. */
  function ImportedClassName(imp: string): string
    requires 7 <= LastIndexOf(imp, '.')
  {
    Trim(imp[7..LastIndexOf(imp, '.')])
  }

  /** The imports that start with "static", in order. */
  function StaticImports(imports: seq<string>): seq<string> {
    if |imports| == 0 then []
    else if StartsWith(imports[0], "static") then [imports[0]] + StaticImports(imports[1..])
    else StaticImports(imports[1..])
  }
}
