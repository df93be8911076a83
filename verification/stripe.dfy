/** The closed catalog of credit packages a user can buy. */
module Stripe {
  import opened Types

  /** The catalog's keys. A purchase request names a package by one of these
      keys, spelled in upper case. */
  datatype CreditPackageId = BASIC | STANDARD | PREMIUM

  datatype CreditPackage = CreditPackage(
    id: string,
    name: string,
    credits: int,
    price: int,        // minor units (US cents)
    description: string)

  /** The key under which each package is filed in the catalog. */
  function KeyName(p: CreditPackageId): string
  {
    match p
    case BASIC => "BASIC"
    case STANDARD => "STANDARD"
    case PREMIUM => "PREMIUM"
  }

  function Package(p: CreditPackageId): (pkg: CreditPackage)
    ensures pkg.credits > 0 && pkg.price > 0
  {
    match p
    case BASIC => CreditPackage("basic", "Basic Package", 5, 100, "5 legal rights lookups")
    case STANDARD => CreditPackage("standard", "Standard Package", 15, 250, "15 legal rights lookups")
    case PREMIUM => CreditPackage("premium", "Premium Package", 50, 700, "50 legal rights lookups")
  }

  /** Indexing the catalog by a request's package string. */
  function ResolvePackageId(s: string): (r: Option<CreditPackageId>)
    ensures r.Some? <==> s in {"BASIC", "STANDARD", "PREMIUM"}
    ensures r.Some? ==> KeyName(r.value) == s
  {
    if s == "BASIC" then Some(BASIC)
    else if s == "STANDARD" then Some(STANDARD)
    else if s == "PREMIUM" then Some(PREMIUM)
    else None
  }

  /** The names every JavaScript object inherits from `Object.prototype`.
      Indexing the catalog by one of them finds a value (a function, or the
      prototype itself) that passes the truthiness guard but has no
      `credits` field. */
  predicate InheritedName(s: string)
    ensures InheritedName(s) ==> ResolvePackageId(s).None?
  {
    s in {"constructor", "hasOwnProperty", "isPrototypeOf", "propertyIsEnumerable", "toString",
          "toLocaleString", "valueOf", "__proto__", "__defineGetter__", "__defineSetter__",
          "__lookupGetter__", "__lookupSetter__"}
  }

  /** Every catalog key resolves back to its own package, and the three keys
      are distinct. */
  lemma KeyNameResolves(p: CreditPackageId)
    ensures ResolvePackageId(KeyName(p)) == Some(p)
    ensures forall q: CreditPackageId :: q != p ==> KeyName(q) != KeyName(p)
  {
  }

  /** The lower-case `id` stored inside a package is not a catalog key. */
  lemma PackageIdIsNotAKey(p: CreditPackageId)
    ensures ResolvePackageId(Package(p).id) == None
  {
  }

  /** The grants and prices of the three packages. */
  lemma CatalogValues()
    ensures Package(BASIC).credits == 5 && Package(BASIC).price == 100
    ensures Package(STANDARD).credits == 15 && Package(STANDARD).price == 250
    ensures Package(PREMIUM).credits == 50 && Package(PREMIUM).price == 700
  {
  }
}
