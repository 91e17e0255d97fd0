/** What the operators consume from outside: the graph's `Type`s, `Node`s,
    the element-type tag (`Dtype`), and the `Scalar` and `Tensor` values of
    the tensor library. Their implementations are not part of this model, so
    they are abstract types, and every observation the operators make of
    them is a function held in a `Capabilities` record that callers pass in. */
module Values {
  import opened Wrappers

  /** The symbolic type of the type system (`hm.Type` in the graph builder). */
  type Type(==)
  /** The element-type tag stored in a scalar's field `t`. */
  type Dtype(==)
  /** A scalar value. */
  type Scalar(==)
  /** An N-dimensional array value. */
  type Tensor(==)
  /** A graph vertex; operators only receive them as arguments. */
  type Node(==)

  /** `types.Shape`: one extent per dimension. */
  type Shape = seq<nat>

  /** The `Value` interface, restricted to the two kinds the constant operators wrap. */
  datatype Value = ScalarValue(scalar: Scalar) | TensorValue(tensor: Tensor)

  /** The observations the constant operators make of external values. */
  datatype Capabilities = Capabilities(
    scalarType: Scalar -> Type,              // Scalar.Type()
    scalarDtype: Scalar -> Dtype,            // the field `t`
    dtypeBinary: Dtype -> Option<seq<byte>>, // binary.Write in little-endian order; None when it fails
    scalarText: Scalar -> seq<byte>,         // fmt's "%v" of a Scalar
    tensorType: Tensor -> Type,              // Tensor.Type()
    tensorShape: Tensor -> Shape,            // Tensor.Shape()
    tensorText: Tensor -> seq<byte>,         // fmt's "%v" of a Tensor
    typeText: Type -> seq<byte>,             // fmt's "%v" of a Type
    scalarShape: Shape                       // types.ScalarShape()
  )

  /** `Value.Type()`: the type a value reports of itself. */
  function TypeOf(caps: Capabilities, v: Value): Type
  {
    match v
    case ScalarValue(s) => caps.scalarType(s)
    case TensorValue(t) => caps.tensorType(t)
  }
}
