# DynamicCaller in Dafny

A model of DynamicCaller, a C++ header that keeps a registry of callables
sharing one signature `Ret(Args...)`, keyed by an identifier of type
`id_type`, together with the example program that registers four binary
integer operations in it.

- `function_registry.dfy`, module `FunctionRegistry` (dynamiccaller.hpp).
  The function-local `static` map that every `DynamicCaller` object of one
  template instantiation shares is the class `Storage`: a `table` field of
  type `map<Id, A --> R>` that `Put` updates in place, and a ghost history
  `puts` of every store made, so that `Valid()` says the table is the replay
  of its history on the empty map. `DynamicCaller` objects are handles with a
  `const storage` reference. Sharing is a usage convention: a program builds
  every handle of one instantiation on the same `Storage` object, and then a
  store through one handle is seen through all of them.
  `PutFunction` inserts or overwrites and returns nothing. `GetFunction` and
  `CallFunction` return a `Result` whose error `NotFound(id)` stands for the
  thrown `runtime_error`. `Message` gives that error's text for string keys.
  The pure functions `Lookup`, `Apply` and `Replay` specify the methods, and
  the lemmas beside them state last-write-wins, the frame of a store,
  lookup-then-call, and that the key set only grows.
- `example.dfy`, module `Example` (example.cpp). C++ `int` is the newtype
  `int32`. `plus`, `minus`, `multiply` and `divide` are functions whose
  preconditions exclude the undefined behaviour of signed overflow and
  division by zero. `divide` is C++ division truncating toward zero
  (`TruncDiv`), not Dafny's Euclidean `/`. `AddDynFunc` registers an
  `Operation` under `Name(op)`, the name the macro stringifies, and
  `RegisterExampleFunctions` is the start of `main` up to its input loop.

The argument pack `Args...` is a single type parameter `A`; for
`int(int, int)` it is the pair `(int32, int32)`, and `AsCallable` converts a
two-argument function into that callable type, as the implicit conversion to
`std::function` does.

## Model

| member | source | states |
|---|---|---|
| FunctionRegistry.Message | dynamiccaller.hpp:108-110 | the error text is "Lookup failed: no function " followed by exactly the missing id |
| FunctionRegistry.MessageRoundTrip | dynamiccaller.hpp:108-110 | the id can be read back from the error text |
| FunctionRegistry.MessageInjective | dynamiccaller.hpp:108-110 | two lookup failures with the same text are for the same id |
| FunctionRegistry.Lookup | dynamiccaller.hpp:105-113 | lookup succeeds iff the id is in the table, with the stored callable; otherwise it fails with NotFound carrying that id |
| FunctionRegistry.Apply | dynamiccaller.hpp:78-81 | a call succeeds iff the id is in the table, with the stored callable applied to the arguments; otherwise NotFound(id) |
| FunctionRegistry.ApplyIsLookupThenCall | dynamiccaller.hpp:78-81 | calling is lookup followed by application, with the same NotFound failure exactly when the lookup fails |
| FunctionRegistry.PutThenGet | dynamiccaller.hpp:119-121 | after storing f under id, lookup of id returns f |
| FunctionRegistry.PutOverwrites | dynamiccaller.hpp:119-121 | storing twice under one id equals storing only the last callable: last write wins, no error |
| FunctionRegistry.PutFrame | dynamiccaller.hpp:119-121 | a store under id leaves the lookup of every other id unchanged |
| FunctionRegistry.ReplayKeys | dynamiccaller.hpp:88-121 | after a sequence of stores the keys are the initial keys plus every stored id: nothing is erased |
| FunctionRegistry.ReplayAppend | dynamiccaller.hpp:88-121 | the table after two runs of stores is the replay of their concatenation |
| FunctionRegistry.KeysOnlyGrow | dynamiccaller.hpp:88-121 | later stores never remove a key: the key set only grows |
| FunctionRegistry.ReplayLastWriteWins | dynamiccaller.hpp:119-121 | the callable for an id is the one of its latest store |
| FunctionRegistry.ReplayUntouched | dynamiccaller.hpp:119-121 | an id that no store names answers as before the stores |
| FunctionRegistry.Storage.constructor | dynamiccaller.hpp:88 | the static map starts empty with no history |
| FunctionRegistry.Storage.Put | dynamiccaller.hpp:119-121 | the table becomes the old table with id mapped to f, and the store is appended to the history, keeping the table equal to the replay of its history |
| FunctionRegistry.Storage.Get | dynamiccaller.hpp:105-113 | returns Lookup of the current table and modifies nothing |
| FunctionRegistry.StorageKeys | dynamiccaller.hpp:88-121 | the keys of a valid storage are exactly the identifiers ever stored |
| FunctionRegistry.StorageLastWriteWins | dynamiccaller.hpp:119-121 | in a valid storage an identifier maps to the callable of its latest store |
| FunctionRegistry.DynamicCaller.constructor | dynamiccaller.hpp:87-88 | a handle is bound to the storage object it is given |
| FunctionRegistry.DynamicCaller.PutFunction | dynamiccaller.hpp:62-64 | the shared table gains or replaces the entry for id and nothing else changes |
| FunctionRegistry.DynamicCaller.GetFunction | dynamiccaller.hpp:70-72 | returns Lookup of the shared table and modifies nothing |
| FunctionRegistry.DynamicCaller.CallFunction | dynamiccaller.hpp:78-81 | returns Apply of the shared table: the callee's result, or NotFound(id); modifies nothing |
| FunctionRegistry.ShareAcrossHandles | dynamiccaller.hpp:87-88 | a function put through one handle is returned by GetFunction through any other handle on the same storage |
| Example.TruncDiv | example.cpp:16-18 | C++ `/`: the quotient times the divisor has the sign of the dividend and is within one divisor of it, truncating toward zero |
| Example.TruncDivUnique | example.cpp:16-18 | those two properties determine the quotient uniquely |
| Example.TruncDivIsNotEuclidean | example.cpp:16-18 | on -7 / 2 C++ gives -3 where Dafny's `/` gives -4 |
| Example.Plus | example.cpp:4-6 | plus is the exact sum, required to fit in 32 bits |
| Example.Minus | example.cpp:8-10 | minus is the exact difference, required to fit in 32 bits |
| Example.Multiply | example.cpp:12-14 | multiply is the exact product, required to fit in 32 bits |
| Example.Divide | example.cpp:16-18 | divide is the truncating quotient, defined for b != 0 except INT_MIN / -1 |
| Example.MinusUndoesPlus | example.cpp:4-10 | minus undoes plus and plus undoes minus whenever neither overflows |
| Example.DivideUndoesMultiply | example.cpp:12-18 | dividing an exact product by one factor gives back the other |
| Example.AsCallable | example.cpp:20-21 | the converted callable is defined wherever the function is and gives the same result |
| Example.Name | example.cpp:20-21 | the key of an operation is its own name as the macro stringifies it, and that name resolves back to the operation, so the four keys are distinct |
| Example.NameOfNamed | example.cpp:20-21 | a string resolves only to the operation carrying that name, and strings other than the four names resolve to nothing |
| Example.Implementation | example.cpp:26-29 | the callable registered for each operation is defined wherever C++ defines it (no overflow, no division by zero) and gives the exact sum, difference, product or truncating quotient |
| Example.AddDynFunc | example.cpp:20-21 | registers the operation under its own name, as one PutFunction |
| Example.RegisterExampleFunctions | example.cpp:23-29 | a fresh registry after the four registrations, in order, holds exactly the example table |
| Example.ExampleKeys | example.cpp:26-29 | the keys are exactly plus, minus, multiply and divide |
| Example.ExampleLookup | example.cpp:26-29 | every registered name looks up to the function of that name and every other name to NotFound |
| Example.ExampleCall | example.cpp:26-29 | calling any of the four operations by its name, wherever C++ defines it, succeeds with the exact sum, difference, product or truncating quotient |
| Example.ExampleCalls | example.cpp:26-38 | calls by name give 3+4 = 7, 10-4 = 6, 5*6 = 30, 20/4 = 5 and -7/2 = -3 |
| Example.ExampleMissing | example.cpp:37-40 | calling "modulo" fails with NotFound("modulo"), whose text is "Lookup failed: no function modulo" |

## Left out

- The opcode dispatcher `_Storage` (dynamiccaller.hpp:87-99) and its null reference on the PUT path: storing and looking up are separate methods of `Storage`, and storing returns nothing.
- C++ exceptions: the thrown `runtime_error` is the `Err(NotFound(id))` value, and `catch` is the caller matching on it.
- The error text for non-string ids: `stringstream` formatting of an arbitrary `id_type` is not modelled; `Message` covers string ids, and for other ids the error carries the id itself.
- FunctionRegistry.DynamicCaller.constructor: that all handles of one instantiation share one `Storage` is left to the caller and not enforced; two handles built on two `Storage` objects do not see each other's stores, which the single `static` map of the original rules out.
- Empty callables: an empty `std::function` (default-constructed, or from `nullptr`) can be stored, is returned by `GetFunction`, and makes `CallFunction` throw `std::bad_function_call`; the arrow type `A --> R` has no empty value, so neither that store nor that second kind of failure is modelled.
- FunctionRegistry.DynamicCaller.GetFunction: returns the stored callable as a value, not a reference into the map; in C++ such a reference would show a later overwrite of the same id.
- Failures of the callee itself (division by zero, signed overflow) are undefined behaviour in C++; the example functions require their absence, and `CallFunction` requires the callee's precondition (`CanCall`), so such a call is outside the model rather than a propagated error.
- The variadic `Args...` and `std::function` type erasure: one argument type `A` (a tuple for several arguments) and the arrow type `A --> R`.
- Example.AsCallable: states only that the converted callable is defined wherever the function is; the converse direction is not stated.
- The input loop of `main` (example.cpp:31-42): it reads standard input and writes standard output forever.
- Concurrency: the original has no locking, and the model is sequential.
