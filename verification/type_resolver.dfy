/**
 The type resolver of `ValueConversionUtils`: finding the primitive type a
 wrapper type converts literals to, remembered in `_typeCache`. Reflection is
 replaced by the `WrapperType` descriptor, and the static dictionary by a map
 threaded through each call.
 */
module TypeResolver {
  import opened VaultTypes

  /** `_typeCache`: wrapper type to resolved primitive type. */
  type TypeCache = map<TypeId, Prim>

  /** The cache after a resolution, and the resolved type or the error raised. */
  datatype Resolution = Resolution(cache: TypeCache, result: Result<Prim>)

  /**
   Resolution without the cache: an explicit `PrimitiveInfoAttribute` wins;
   without one a `VLTEnumType<T>` resolves to T; any other wrapper type has
   no primitive type.
   */
  function ColdResolve(t: WrapperType): (r: Result<Prim>)
    ensures r.Success? <==> t.attribute.Some? || t.enumArgument.Some?
    ensures r.Failure? ==> r.error == SchemaError
  {
    match t.attribute
    case Some(p) => Success(p)
    case None =>
      match t.enumArgument
      case Some(e) => Success(EnumPrim(e))
      case None => Failure(SchemaError)
  }

  /**
   Resolution through the cache: a cached type is returned as is; otherwise
   the type is resolved cold and, if that succeeds, recorded under the
   wrapper's identity before it is returned. A failure raises before the
   cache is written.
   */
  function Resolve(cache: TypeCache, t: WrapperType): (r: Resolution)
    ensures forall id :: id in cache ==> id in r.cache && r.cache[id] == cache[id]
    ensures r.cache.Keys <= cache.Keys + {t.id}
    ensures r.result.Success? ==> t.id in r.cache && r.cache[t.id] == r.result.value
    ensures r.result.Failure? ==> r.cache == cache && r.result.error == SchemaError
  {
    if t.id in cache then Resolution(cache, Success(cache[t.id]))
    else
      match ColdResolve(t)
      case Success(p) => Resolution(cache[t.id := p], Success(p))
      case Failure(err) => Resolution(cache, Failure(err))
  }

  /**
   On a cache hit the cached type is returned and the cache is untouched,
   whatever attribute or generic argument the wrapper type carries.
   */
  lemma CacheHitIgnoresMetadata(cache: TypeCache, t: WrapperType, u: WrapperType)
    requires t.id in cache && u.id == t.id
    ensures Resolve(cache, t) == Resolution(cache, Success(cache[t.id]))
    ensures Resolve(cache, u) == Resolve(cache, t)
  {
  }

  /**
   On a miss the attribute's type wins; only without an attribute does a
   `VLTEnumType<T>` resolve to T; with neither the resolution fails with a
   schema error and the cache is left as it was.
   */
  lemma ColdResolutionPrecedence(cache: TypeCache, t: WrapperType)
    requires t.id !in cache
    ensures t.attribute.Some? ==>
      Resolve(cache, t) == Resolution(cache[t.id := t.attribute.value], Success(t.attribute.value))
    ensures t.attribute.None? && t.enumArgument.Some? ==>
      Resolve(cache, t) == Resolution(cache[t.id := EnumPrim(t.enumArgument.value)], Success(EnumPrim(t.enumArgument.value)))
    ensures t.attribute.None? && t.enumArgument.None? ==>
      Resolve(cache, t) == Resolution(cache, Failure(SchemaError))
  {
  }

  /**
   A successful resolution changes the cache at the wrapper's key only, and
   resolving the same wrapper type again is a hit that yields the identical
   type and leaves the cache as the first resolution left it.
   */
  lemma ResolveTwice(cache: TypeCache, t: WrapperType)
    requires Resolve(cache, t).result.Success?
    ensures var first := Resolve(cache, t);
      && first.cache == cache[t.id := first.result.value]
      && Resolve(first.cache, t) == first
  {
  }

  /** Every wrapper type in `types` that is cached maps to its cold resolution. */
  ghost predicate Coherent(cache: TypeCache, types: set<WrapperType>) {
    forall t :: t in types && t.id in cache ==> ColdResolve(t) == Success(cache[t.id])
  }

  /** A type handle determines the type's metadata, as `System.Type` identity does. */
  ghost predicate IdsDetermineTypes(types: set<WrapperType>) {
    forall t, u :: t in types && u in types && t.id == u.id ==> t == u
  }

  /**
   Caching is transparent: from a cache built by earlier resolutions of the
   same types, resolving gives exactly the cold result, and the cache stays
   coherent, so every later resolution does too.
   */
  lemma CachingIsTransparent(cache: TypeCache, types: set<WrapperType>, t: WrapperType)
    requires IdsDetermineTypes(types) && Coherent(cache, types) && t in types
    ensures Resolve(cache, t).result == ColdResolve(t)
    ensures Coherent(Resolve(cache, t).cache, types)
  {
  }
}
