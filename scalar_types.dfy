/** The scalar element types the library and its benchmarks are instantiated
    with. Traits and type names are keyed by these; any other type is kept
    by its implementation-defined name. */
module ScalarTypes {

  datatype ScalarType = Float | Double | OtherScalar(typeidName: string)

}
