/** The tenant-charge record both ingestion paths build: a name and the water,
    electricity and rent amounts. The amounts have the type `N` of whatever the
    numeric conversion produces (a JavaScript number, NaN included); a record whose
    amounts are still text is a `Tenant<string>`. */
module Tenants {

  datatype Tenant<N> = Tenant(name: string, water: N, electricity: N, rent: N)

  /** Applies one conversion to each of the three amounts and keeps the name. */
  function ConvertAmounts<A, B>(t: Tenant<A>, convert: A -> B): Tenant<B>
  {
    Tenant(t.name, convert(t.water), convert(t.electricity), convert(t.rent))
  }
}
