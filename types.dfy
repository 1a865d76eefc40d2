/**
 * `lexion_lang`'s types: the `Type` tree, its display string, and the `TypeCollection` that
 * deduplicates types by that string. The arena never removes anything, so an arena index is
 * the position of the type in insertion order.
 */
module Types {
  import opened Wrappers
  import opened Strings

  datatype Type =
    | Tuple(types: seq<Type>)
    | Struct(ident: string, refCount: nat)
    | Function(params: seq<Type>, returnType: Type)
    | TypeDef(ident: string, ty: string)

  const VOID: Type := Struct("void", 0)
  const U32: Type := Struct("u32", 0)
  const F32: Type := Struct("f32", 0)
  const STR: Type := Struct("str", 0)
  const BOOL: Type := Struct("bool", 0)

  /**
   * `Display`: a tuple as its members' strings joined by ", " in parentheses, a struct as one `&`
   * per reference followed by its name, a function as `fn (<params>) -> <return>`, and a type
   * definition by its name alone.
   */
  function TypeString(t: Type): string {
    match t
    case Tuple(ts) => "(" + Join(seq(|ts|, i requires 0 <= i < |ts| => TypeString(ts[i])), ", ") + ")"
    case Struct(ident, refCount) => RepeatChar('&', refCount) + ident
    case Function(ps, ret) =>
      "fn (" + Join(seq(|ps|, i requires 0 <= i < |ps| => TypeString(ps[i])), ", ") + ") -> " + TypeString(ret)
    case TypeDef(ident, _) => ident
  }

  /** The display strings of a few types, one of each shape. */
  lemma DisplayExamples()
    ensures TypeString(Tuple([])) == "()"
    ensures TypeString(Tuple([U32, BOOL])) == "(u32, bool)"
    ensures TypeString(Struct("str", 2)) == "&&str"
    ensures TypeString(Function([U32, Struct("str", 1)], VOID)) == "fn (u32, &str) -> void"
    ensures TypeString(TypeDef("id", "u32")) == "id"
  {
    assert RepeatChar('&', 2) == "&&";
    assert RepeatChar('&', 1) == "&";
    assert Join(["u32", "bool"], ", ") == "u32, bool";
    assert Join(["u32", "&str"], ", ") == "u32, &str";
  }

  /** Two type definitions with the same name display alike, whatever they stand for. */
  lemma TypeDefsCollide(ident: string, a: string, b: string)
    ensures TypeString(TypeDef(ident, a)) == TypeString(TypeDef(ident, b))
  {
  }

  /** The number of `&` a string starts with. */
  function LeadingAmpersands(s: string): nat {
    if |s| > 0 && s[0] == '&' then 1 + LeadingAmpersands(s[1..]) else 0
  }

  /** A struct's display string starts with exactly one `&` per reference, when its name does not start with one. */
  lemma {:induction false} StructAmpersands(ident: string, n: nat)
    requires |ident| == 0 || ident[0] != '&'
    ensures LeadingAmpersands(TypeString(Struct(ident, n))) == n
  {
    if n > 0 {
      var s := RepeatChar('&', n) + ident;
      assert s[1..] == RepeatChar('&', n - 1) + ident;
      StructAmpersands(ident, n - 1);
    }
  }

  /**
   * A struct's display string determines the struct, as long as names do not start with `&`:
   * the ampersands in front count the references.
   */
  lemma StructDisplayInjective(a: string, m: nat, b: string, n: nat)
    requires |a| == 0 || a[0] != '&'
    requires |b| == 0 || b[0] != '&'
    requires TypeString(Struct(a, m)) == TypeString(Struct(b, n))
    ensures a == b && m == n
  {
    StructAmpersands(a, m);
    StructAmpersands(b, n);
    var s := TypeString(Struct(a, m));
    assert a == s[m..] == b;
  }

  /** The arena and the string map agree: each string maps to the index of a type displaying as it, and back. */
  ghost predicate Indexed(arena: seq<Type>, strings: map<string, nat>) {
    (forall s :: s in strings ==> strings[s] < |arena| && TypeString(arena[strings[s]]) == s) &&
    (forall k :: 0 <= k < |arena| ==> TypeString(arena[k]) in strings && strings[TypeString(arena[k])] == k)
  }

  /** `insert` on the arena and the string map: the new arena, the new map and the index returned. */
  function Inserted(arena: seq<Type>, strings: map<string, nat>, ty: Type): (seq<Type>, map<string, nat>, nat) {
    var s := TypeString(ty);
    if s in strings then (arena, strings, strings[s])
    else (arena + [ty], strings[s := |arena|], |arena|)
  }

  /**
   * `insert` keeps the arena and the map in agreement and returns the index of a type with `ty`'s
   * display string. If that string was known, nothing changes and its index comes back; otherwise
   * the arena grows by `ty` alone, at the end.
   */
  lemma InsertedFacts(arena: seq<Type>, strings: map<string, nat>, ty: Type)
    requires Indexed(arena, strings)
    ensures var (arena', strings', index) := Inserted(arena, strings, ty);
            Indexed(arena', strings') && index < |arena'| &&
            TypeString(arena'[index]) == TypeString(ty) && strings'[TypeString(ty)] == index &&
            (TypeString(ty) in strings ==> arena' == arena && strings' == strings) &&
            (TypeString(ty) !in strings ==> arena' == arena + [ty] && index == |arena|)
  {
    var s := TypeString(ty);
    if s !in strings {
      var arena', strings' := arena + [ty], strings[s := |arena|];
      forall k | 0 <= k < |arena'|
        ensures TypeString(arena'[k]) in strings' && strings'[TypeString(arena'[k])] == k
      {
        if k < |arena| {
          assert arena'[k] == arena[k];
        }
      }
    }
  }

  /** Types with equal display strings share an index: after one is inserted, the other finds it and changes nothing. */
  lemma SameDisplaySameIndex(arena: seq<Type>, strings: map<string, nat>, a: Type, b: Type)
    requires Indexed(arena, strings) && TypeString(a) == TypeString(b)
    ensures var (arena', strings', i) := Inserted(arena, strings, a);
            Inserted(arena', strings', b) == (arena', strings', i)
  {
    InsertedFacts(arena, strings, a);
  }

  /** The index reached from `ty` after following `m` for `n` rounds, staying put at an index without an entry. */
  function Chase(m: map<nat, nat>, ty: nat, n: nat): nat {
    if n == 0 then ty
    else
      var p := Chase(m, ty, n - 1);
      if p in m then m[p] else p
  }

  /** Where a `canonicalize` loop ends: with an index, or not at all within the fuel given. */
  datatype Halted = Halted(index: nat) | OutOfFuel

  class TypeCollection {
    var arena: seq<Type>
    var typeStrings: map<string, nat>
    var typeMap: map<nat, nat>

    ghost predicate Valid()
      reads this
    {
      Indexed(arena, typeStrings)
    }

    /** The default, empty collection. */
    constructor ()
      ensures Valid() && arena == [] && typeStrings == map[] && typeMap == map[]
    {
      arena, typeStrings, typeMap := [], map[], map[];
    }

    /** `insert`: the index of the type with `ty`'s display string, adding `ty` when there is none. */
    method Insert(ty: Type) returns (index: nat)
      requires Valid()
      modifies this
      ensures Valid()
      ensures (arena, typeStrings, index) == Inserted(old(arena), old(typeStrings), ty)
      ensures index < |arena| && TypeString(arena[index]) == TypeString(ty)
      ensures typeMap == old(typeMap)
    {
      InsertedFacts(arena, typeStrings, ty);
      var s := TypeString(ty);
      if s in typeStrings {
        index := typeStrings[s];
      } else {
        index := |arena|;
        arena := arena + [ty];
        typeStrings := typeStrings[s := index];
      }
    }

    /**
     * `canonicalize`, run for at most `fuel` rounds. The loop tests the key it started with on every
     * round, so it returns `ty` itself when `ty` has no `type_map` entry and never exits when it has
     * one, however much fuel it is given.
     */
    method Canonicalize(ty: nat, fuel: nat) returns (r: Halted)
      ensures ty !in typeMap ==> r == Halted(ty)
      ensures ty in typeMap ==> r == OutOfFuel
    {
      var result := ty;
      var steps := fuel;
      while ty in typeMap
        invariant result == ty || (ty in typeMap && result == typeMap[ty])
        decreases steps
      {
        if steps == 0 {
          return OutOfFuel;
        }
        result := typeMap[ty];
        steps := steps - 1;
      }
      return Halted(result);
    }

    /**
     * The loop `canonicalize` evidently means, run for at most `fuel` rounds: it follows `type_map`
     * from the index reached so far, and ends at the first index without an entry.
     */
    method CanonicalizeChasing(ty: nat, fuel: nat) returns (r: Halted)
      ensures r.Halted? ==> r.index !in typeMap && exists k :: 0 <= k <= fuel && Chase(typeMap, ty, k) == r.index
      ensures r.OutOfFuel? ==> forall k :: 0 <= k <= fuel ==> Chase(typeMap, ty, k) in typeMap
    {
      var result := ty;
      var steps: nat := 0;
      while result in typeMap
        invariant steps <= fuel && result == Chase(typeMap, ty, steps)
        invariant forall k :: 0 <= k < steps ==> Chase(typeMap, ty, k) in typeMap
        decreases fuel - steps
      {
        if steps == fuel {
          return OutOfFuel;
        }
        result := typeMap[result];
        steps := steps + 1;
      }
      return Halted(result);
    }

    /**
     * `eq`: whether the canonical indices are equal. Where both `canonicalize` calls end, that is
     * whether the indices themselves are equal, so `eq` is reflexive wherever it answers; `None`
     * stands for a call that never returns.
     */
    method Eq(a: nat, b: nat, fuel: nat) returns (r: Option<bool>)
      ensures a !in typeMap && b !in typeMap ==> r == Some(a == b)
      ensures a in typeMap || b in typeMap ==> r.None?
    {
      var ca := Canonicalize(a, fuel);
      if ca.OutOfFuel? {
        return None;
      }
      var cb := Canonicalize(b, fuel);
      if cb.OutOfFuel? {
        return None;
      }
      r := Some(ca.index == cb.index);
    }
  }
}
