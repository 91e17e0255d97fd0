# Constant operators of the gorgonia operator contract

Every operator in gorgonia's computation graph answers the same set of queries. It reports its type and its output shape. It says which inputs it can be differentiated through and builds the gradient sub-graph. It executes (`Do`), it gives aliasing hints to the scheduler, and it writes a structural hash that the deduplication layer uses as a key. This project models the two leaf operators that implement the whole contract: `constantScalar` and `constantTensor`. Each wraps one immutable value and takes no inputs. It also models their structural hashing. That hash is 32-bit FNV-1a (`fnv.New32a`), as defined in section 2 of the IETF draft draft-eastlake-fnv, computed over a canonical byte stream.

Files:

- `wrappers.dfy` (module `Wrappers`): Go's `byte`, `Option`, and `Result` for Go's `(value, error)` pairs.
- `fnv.dfy` (module `Fnv`): the FNV-1a-32 round `Step`, the fold `Fold`/`Hash32`, and the streaming digest class `Fnv32a`. The digest's `Write` loops over the bytes as Go's digest does. Its `Valid()` invariant ties the 32-bit `sum` to `Hash32` of every byte written so far. Go's `uint32` is modelled as `bv32`, whose multiplication keeps the low 32 bits of the product, so the wrap-around is that of Go's `hash *= prime32`.
- `values.dfy` (module `Values`): the things the operators use but do not implement. `Type`, `Dtype`, `Scalar`, `Tensor` and `Node` are abstract types. `Capabilities` is a record of the functions that observe them: `Type()`, the field `t`, `binary.Write` of `t`, `Shape()`, fmt's `%v`, and `types.ScalarShape()`. Callers pass it in.
- `op.dfy` (module `Ops`): `ConstOp = ConstScalar | ConstTensor`. Its member functions model the contract's queries. The method `WriteHash` makes the source's writes into an `Fnv32a`, and the method `Hashcode` runs it on a fresh digest. The lemmas state what the constants promise.

`Do` performs no arity check: both constants ignore their arguments (op.go:138, op.go:172), so the model's `Do` returns the wrapped value with no error for every argument list.

## Model

| member | source | states |
|---|---|---|
| `Ops.ConstOp.Type` | op.go:127 | `Type()` returns the wrapped value's type: the scalar's `Type()`, or the tensor's (op.go:162) |
| `Ops.ConstOp.ReturnsPtr` | op.go:128 | `returnsPtr()` is false for the scalar constant and true for the tensor constant (op.go:166) |
| `Ops.ConstOp.CallsExtern` | op.go:129 | `callsExtern()` is false for both kinds (op.go:168) |
| `Ops.ConstOp.OverwriteInput` | op.go:130 | `overwriteInput()` is the sentinel -1 for both kinds (op.go:167) |
| `Ops.ConstOp.DiffWRT` | op.go:131 | `DiffWRT(i)` is the empty (nil) list for every `i`, for both kinds (op.go:169) |
| `Ops.ConstOp.SymDiff` | op.go:132 | `SymDiff` returns no nodes and a nil error, whatever its arguments, for both kinds (op.go:170) |
| `Ops.ConstOp.InferShape` | op.go:134-136 | `inferShape` returns `types.ScalarShape()` for the scalar constant and the wrapped tensor's `Shape()` for the tensor constant (op.go:171), with a nil error and without looking at the hint or the nodes |
| `Ops.ConstOp.Do` | op.go:138 | `Do` returns the wrapped value, as a `Value`, with a nil error, without looking at its arguments (op.go:172) |
| `Ops.ConstOp.IsConstant` | op.go:155 | `isconstant()` is true for both kinds (op.go:186) |
| `Ops.ConstOp.Value` | op.go:156 | `Value()` returns the wrapped scalar or tensor as a `Value` (op.go:187) |
| `Ops.ConstOp.Hashable` | op.go:143-145 | holds unless the constant is a scalar whose type tag `binary.Write` cannot encode, the case in which `WriteHash` panics; a tensor constant is always hashable |
| `Fnv.Fnv32a.constructor` | op.go:150 | `fnv.New32a()` is a digest that has seen no bytes; its state is the offset basis 2166136261 |
| `Fnv.Fnv32a.Write` | op.go:142-146 | a write folds every given byte into the state, in order. The digest then holds FNV-1a-32 of all bytes written so far plus these. It reports every byte as written |
| `Fnv.Fnv32a.Sum32` | op.go:152 | `Sum32` returns FNV-1a-32 of exactly the bytes written, and leaves the digest unchanged |
| `Fnv.FoldAppend` | op.go:141-147 | for any byte-at-a-time round function, feeding `a` and then `b` gives the same state as feeding `a + b`. How a writer splits its output into `Write` calls never changes the hash |
| `Fnv.FoldSnoc` | op.go:150-152 | appending one byte to the stream applies exactly one more FNV-1a round |
| `Fnv.TestVectorRounds` | op.go:150-152 | the xor-then-multiply-mod-2^32 round takes the offset basis to the hash of "a", and takes each prefix of "foobar" to the next: the states are the FNV-1a-32 hashes of "f", "fo", "foo", "foob", "fooba" and "foobar" |
| `Fnv.TestVectorsShort` | op.go:150-152 | the hash of the empty stream is 0x811c9dc5 and of "a" is 0xe40c292c, as in the draft's test vectors |
| `Fnv.TestVectorFoobar` | op.go:150-152 | the hash of "foobar" is 0xbf9cf968, as in the draft's test vectors |
| `Ops.ConstOp.HashBytes` | op.go:141-147 | the canonical stream of either kind opens with the "const " tag and closes with the wrapped value's `%v` rendering (tensor: op.go:175-178) |
| `Ops.ConstOp.WriteHash` | op.go:141-147 | appends exactly `HashBytes` to the digest and nothing else. For a scalar that is "const ", the little-endian tag, then "of " and the value's `%v`, in three writes. For a tensor (op.go:175-178) it is "const " and the type's `%v`, then the tensor's `%v`, in two writes. It is defined only when the tag encodes (the source panics otherwise) |
| `Ops.ConstOp.Hashcode` | op.go:149-153 | the hash code is FNV-1a-32 over exactly the bytes `WriteHash` writes into a fresh digest (tensor: op.go:180-184) |
| `Ops.EqualEncodingsEqualHashcodes` | op.go:149-153 | two constants that wrap equal values, or same-kind values with equal tag/type and rendering, have equal streams and equal hash codes |
| `Ops.DoReturnsWrappedValue` | op.go:138 | `Do` returns `Ok` of the wrapped value for every argument list, including a non-empty one. The result has the operator's `Type` (tensor: op.go:172) |
| `Ops.ConstantTypeIsValueType` | op.go:127 | `Type()` is the wrapped value's own type (tensor: op.go:162) |
| `Ops.ConstantIdentity` | op.go:155-156 | `isconstant()` is true. `Value()` is the wrapped value, of the same kind, so distinct constants have distinct values (tensor: op.go:186-187) |
| `Ops.NoGradientFlow` | op.go:131-132 | `DiffWRT(i)` is empty for every `i`, and `SymDiff` returns no nodes and no error. The two agree: one gradient per differentiable input (tensor: op.go:169-170) |
| `Ops.InferShapeIgnoresArguments` | op.go:134-136 | `inferShape` is the scalar shape for a scalar constant and the wrapped tensor's shape for a tensor constant (op.go:171). It is the same for every type hint and node list |
| `Ops.AliasingFlags` | op.go:128-130 | `returnsPtr` is true exactly for the tensor constant (op.go:166), `overwriteInput` is -1, and `callsExtern` is false |

## Left out

- The `Op` interface and the interfaces `UnaryOp`, `BinaryOp`, `NoRetOp`, `AdOp`, `ReductionOp`, `IncrDoer`, `UsePreallocDoer`, `UnsafeDoer` and `constant` (op.go:17-121) have no implementation in this file. The model has no trait to express them, so `ConstOp`'s members stand for the contract.
- `String()` (op.go:139, op.go:173) is debug formatting with no contract.
- The exact bytes that fmt's `%v` gives for a `Scalar`, `Tensor` or `Type`, and that `binary.Write` gives for the tag `t`, are not modelled. Their implementations are not part of this model, so they are functions in `Values.Capabilities`.
- The scalar `WriteHash` panics when `binary.Write` fails. The model makes this the precondition `Hashable`; it does not return an error.
- Go's `hash/fnv` package is not part of this model. `Fnv32a` follows the draft's FNV-1a-32 and has only what `Hashcode` uses: creation, `Write` and `Sum32`. `Reset`, `Sum`, `Size` and `BlockSize` are not modelled.
- Fnv.Fnv32a.Write: returns only the byte count, not Go's error result, because the FNV digest's error is always nil.
- Ops.ConstOp.WriteHash: takes the FNV-1a-32 digest rather than any `hash.Hash`, because that is the only digest the modelled code passes it.
- No claim that distinct values hash differently. FNV-1a-32 has collisions, and the code promises only determinism.
- `Values.Value` has only the scalar and tensor kinds. Other implementations of Go's `Value` interface are not modelled.
- Pointer aliasing of the tensor that `Do` returns is not modelled. The model has only the `returnsPtr` flag and the fact that `Do` returns the very value the operator wraps.
- `Node` is an abstract type, so nil node pointers are not modelled. The graph and the tensor storage engine are external.
- Concurrency and scheduling are not modelled. Every modelled query is a pure function of the operator.
