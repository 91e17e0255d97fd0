/** The two constant leaf operators of the operator contract: `constantScalar`
    and `constantTensor`. Each wraps one immutable value, takes no inputs, and
    answers every query of the contract with a fixed rule; its structural hash
    is FNV-1a-32 over a canonical byte stream describing the wrapped value. */
module Ops {
  import opened Wrappers
  import opened Fnv
  import Values

  /** The bytes of "const ", the tag both constants write first. */
  const ConstTag: seq<byte> := [0x63, 0x6f, 0x6e, 0x73, 0x74, 0x20]
  /** The bytes of "of ", written by the scalar constant before its value. */
  const OfTag: seq<byte> := [0x6f, 0x66, 0x20]
  /** What `overwriteInput` answers when no input may be overwritten. */
  const NoOverwrite: int := -1

  datatype ConstOp = ConstScalar(scalar: Values.Scalar) | ConstTensor(tensor: Values.Tensor)
  {
    /** `Type()`: the type of the wrapped value. */
    function Type(caps: Values.Capabilities): Values.Type
    {
      match this
      case ConstScalar(s) => caps.scalarType(s)
      case ConstTensor(t) => caps.tensorType(t)
    }

    /** `returnsPtr()`: a tensor constant hands out its own tensor rather than a copy. */
    function ReturnsPtr(): bool
    {
      match this
      case ConstScalar(_) => false
      case ConstTensor(_) => true
    }

    /** `callsExtern()`. */
    function CallsExtern(): bool
    {
      false
    }

    /** `overwriteInput()`. */
    function OverwriteInput(): int
    {
      NoOverwrite
    }

    /** `DiffWRT(i)`: Go's nil slice, whatever `i` is. */
    function DiffWRT(i: int): seq<bool>
    {
      []
    }

    /** `SymDiff(inputs, output, grad)`: no gradient nodes and a nil error. */
    function SymDiff(inputs: seq<Values.Node>, output: Values.Node, grad: Values.Node): Result<seq<Values.Node>>
    {
      Ok([])
    }

    /** `inferShape(hint, nodes...)`: the scalar shape, or the wrapped tensor's shape. */
    function InferShape(caps: Values.Capabilities, hint: Values.Type, nodes: seq<Values.Node>): Result<Values.Shape>
    {
      match this
      case ConstScalar(_) => Ok(caps.scalarShape)
      case ConstTensor(t) => Ok(caps.tensorShape(t))
    }

    /** `Do(values...)`: the wrapped value and a nil error; the arguments are not looked at. */
    function Do(args: seq<Values.Value>): Result<Values.Value>
    {
      match this
      case ConstScalar(s) => Ok(Values.ScalarValue(s))
      case ConstTensor(t) => Ok(Values.TensorValue(t))
    }

    /** `isconstant()`. */
    function IsConstant(): bool
    {
      true
    }

    /** `Value()`: the wrapped value. */
    function Value(): Values.Value
    {
      match this
      case ConstScalar(s) => Values.ScalarValue(s)
      case ConstTensor(t) => Values.TensorValue(t)
    }

    /** The scalar constant's `WriteHash` panics when `binary.Write` cannot
        encode the element-type tag; hashing is defined only when it can. */
    predicate Hashable(caps: Values.Capabilities)
    {
      match this
      case ConstScalar(s) => caps.dtypeBinary(caps.scalarDtype(s)).Some?
      case ConstTensor(_) => true
    }

    /** The canonical stream `WriteHash` feeds to the digest:
        scalar: "const ", the little-endian tag, "of ", the value's "%v";
        tensor: "const ", the type's "%v", the tensor's "%v".
        Either way it opens with the "const " tag and closes with the rendering
        of the wrapped value. */
    function HashBytes(caps: Values.Capabilities): (r: seq<byte>)
      requires Hashable(caps)
      ensures |r| >= |ConstTag| && r[..|ConstTag|] == ConstTag
      ensures ConstScalar? ==> |r| >= |caps.scalarText(scalar)| &&
                               r[|r| - |caps.scalarText(scalar)|..] == caps.scalarText(scalar)
      ensures ConstTensor? ==> |r| >= |caps.tensorText(tensor)| &&
                               r[|r| - |caps.tensorText(tensor)|..] == caps.tensorText(tensor)
    {
      match this
      case ConstScalar(s) =>
        ConstTag + caps.dtypeBinary(caps.scalarDtype(s)).value + OfTag + caps.scalarText(s)
      case ConstTensor(t) =>
        ConstTag + caps.typeText(caps.tensorType(t)) + caps.tensorText(t)
    }

    /** `WriteHash(h)`: the same writes, in the same order, as the source:
        three for a scalar constant, two for a tensor constant. */
    method WriteHash(caps: Values.Capabilities, h: Fnv32a)
      requires h.Valid() && Hashable(caps)
      modifies h
      ensures h.Valid()
      ensures h.written == old(h.written) + HashBytes(caps)
    {
      ghost var before := h.written;
      match this
      case ConstScalar(s) =>
        var tag := caps.dtypeBinary(caps.scalarDtype(s)).value;
        var _ := h.Write(ConstTag);
        var _ := h.Write(tag);
        var _ := h.Write(OfTag + caps.scalarText(s));
        assert h.written == before + (ConstTag + tag + OfTag + caps.scalarText(s));
      case ConstTensor(t) =>
        var _ := h.Write(ConstTag + caps.typeText(Type(caps)));
        var _ := h.Write(caps.tensorText(t));
        assert h.written == before + (ConstTag + caps.typeText(Type(caps)) + caps.tensorText(t));
    }

    /** `Hashcode()`: FNV-1a-32 of exactly the bytes `WriteHash` writes into a fresh digest. */
    method Hashcode(caps: Values.Capabilities) returns (code: uint32)
      requires Hashable(caps)
      ensures code == Hash32(HashBytes(caps))
    {
      var h := new Fnv32a();
      WriteHash(caps, h);
      assert h.written == HashBytes(caps);
      code := h.Sum32();
    }
  }

  /** The number of inputs a `DiffWRT` answer marks differentiable. */
  function CountTrue(diff: seq<bool>): nat
  {
    if diff == [] then 0 else (if diff[0] then 1 else 0) + CountTrue(diff[1..])
  }

  /** What `DiffWRT` and `SymDiff` owe each other: `SymDiff` succeeds with one
      gradient per input `DiffWRT` marks differentiable, and no more. */
  predicate GradientsConsistent(diff: seq<bool>, grads: Result<seq<Values.Node>>)
  {
    grads.Ok? && |grads.value| == CountTrue(diff)
  }

  /** Two constants of the same kind whose wrapped values encode to the same
      canonical bytes: the same tag and rendering for scalars, the same type
      rendering and tensor rendering for tensors. */
  predicate SameEncoding(caps: Values.Capabilities, a: ConstOp, b: ConstOp)
  {
    match (a, b)
    case (ConstScalar(x), ConstScalar(y)) =>
      caps.dtypeBinary(caps.scalarDtype(x)) == caps.dtypeBinary(caps.scalarDtype(y)) &&
      caps.scalarText(x) == caps.scalarText(y)
    case (ConstTensor(x), ConstTensor(y)) =>
      caps.typeText(caps.tensorType(x)) == caps.typeText(caps.tensorType(y)) &&
      caps.tensorText(x) == caps.tensorText(y)
    case _ => false
  }

  /** `Do` returns exactly the wrapped value, with no error, whatever it is
      given: there is no arity check. The value it returns has the operator's `Type`. */
  lemma DoReturnsWrappedValue(op: ConstOp, caps: Values.Capabilities, args: seq<Values.Value>)
    ensures op.Do(args) == Ok(op.Value())
    ensures Values.TypeOf(caps, op.Do(args).value) == op.Type(caps)
  {
  }

  /** The operator's `Type` is the type its wrapped value reports. */
  lemma ConstantTypeIsValueType(op: ConstOp, caps: Values.Capabilities)
    ensures op.Type(caps) == Values.TypeOf(caps, op.Value())
  {
  }

  /** Both kinds declare themselves constant, and `Value()` hands back the
      wrapped value itself, of the same kind; distinct constants have distinct values. */
  lemma ConstantIdentity(op: ConstOp, other: ConstOp)
    ensures op.IsConstant()
    ensures op.ConstScalar? ==> op.Value() == Values.ScalarValue(op.scalar)
    ensures op.ConstTensor? ==> op.Value() == Values.TensorValue(op.tensor)
    ensures op.Value() == other.Value() ==> op == other
  {
  }

  /** A constant has no inputs to differentiate through: `DiffWRT` marks
      nothing, `SymDiff` returns no gradients and no error, and the two agree. */
  lemma NoGradientFlow(op: ConstOp, i: int, inputs: seq<Values.Node>, output: Values.Node, grad: Values.Node)
    ensures op.DiffWRT(i) == []
    ensures op.SymDiff(inputs, output, grad) == Ok([])
    ensures GradientsConsistent(op.DiffWRT(|inputs|), op.SymDiff(inputs, output, grad))
  {
  }

  /** `inferShape` is the scalar shape for a scalar constant and the tensor's
      own shape for a tensor constant, whatever type hint and nodes it is given. */
  lemma InferShapeIgnoresArguments(op: ConstOp, caps: Values.Capabilities,
                                   hint: Values.Type, nodes: seq<Values.Node>,
                                   hint': Values.Type, nodes': seq<Values.Node>)
    ensures op.InferShape(caps, hint, nodes) ==
            Ok(if op.ConstScalar? then caps.scalarShape else caps.tensorShape(op.tensor))
    ensures op.InferShape(caps, hint, nodes) == op.InferShape(caps, hint', nodes')
  {
  }

  /** The aliasing hints: only the tensor constant hands out a pointer to its
      value, no input is ever overwritten (there is none), and nothing calls out. */
  lemma AliasingFlags(op: ConstOp)
    ensures op.ReturnsPtr() <==> op.ConstTensor?
    ensures op.OverwriteInput() == NoOverwrite
    ensures !op.CallsExtern()
  {
  }

  /** Determinism of the structural hash: constants of the same kind whose
      values encode alike have equal hash codes; in particular, so do two
      constants wrapping equal values. */
  lemma EqualEncodingsEqualHashcodes(caps: Values.Capabilities, a: ConstOp, b: ConstOp)
    requires a.Hashable(caps)
    requires a.Value() == b.Value() || SameEncoding(caps, a, b)
    ensures b.Hashable(caps)
    ensures a.HashBytes(caps) == b.HashBytes(caps)
    ensures Hash32(a.HashBytes(caps)) == Hash32(b.HashBytes(caps))
  {
  }
}
