# sonLib exceptions in Dafny

A model of sonLib's exception and error-chain subsystem (`impl/sonLibExcept.c`).
An exception (`stExcept`) is a record with a symbolic id, an owned message and
an optional owned cause. Following the cause links gives a singly linked cause
chain. The file builds records, with or without a cause, and reads their fields.
It frees a record together with its whole chain. It throws a record to the
innermost protected region (`_cexceptTOS`), or reports a fatal error when there
is no such region.

Everything is in module `SonLibExcept` (`sonlib_except.dfy`):

- `Except` is a class whose fields are `const`, because the C code never
  changes a record after it builds it. A ghost `Causes` lists the records below
  a record. `Valid()` says that `Causes` follows the `cause` links and never
  returns to the record itself, so every chain is acyclic and finite.
- `Context` is a protected region's marker, with the mutable `except` slot.
- `Runtime` holds the process-wide state. `tos` is `_cexceptTOS`. The ghost
  `live` and `released` give the allocator's view: the records allocated and
  not yet freed, and the log of freed blocks (each message, then its record).
- `Throw` returns a `ThrowOutcome`. It is either `Fatal(id, msg)` or
  `Jumped(context, 1)`, the non-local jump that `longjmp(env, 1)` makes. No
  variant stands for a normal return, because a throw never returns.

## Model

| member | source | states |
|---|---|---|
| `SonLibExcept.Except.Init` | impl/sonLibExcept.c:9-13 | a built record holds exactly the given id, message and cause, and its chain is the record followed by the cause's chain, without cycles |
| `SonLibExcept.Except.GetId` | impl/sonLibExcept.c:60-62 | returns the stored id; it reads no mutable state |
| `SonLibExcept.Except.GetMsg` | impl/sonLibExcept.c:64-66 | returns the stored message; it reads no mutable state |
| `SonLibExcept.Except.GetCause` | impl/sonLibExcept.c:68-70 | returns the stored cause, null exactly when the record has no causes; a returned cause is a valid record whose chain is the rest of this one, so it is still owned by this record's chain |
| `SonLibExcept.Except.ChainLength` | impl/sonLibExcept.c:12 | walking the cause links from a record counts N + 1 records for N causes |
| `SonLibExcept.ChainLinks` | impl/sonLibExcept.c:12 | each record of a chain is valid and its chain is the matching suffix; consecutive records are joined by `cause`; the last record has a null cause |
| `SonLibExcept.ChainDistinct` | impl/sonLibExcept.c:50-58 | no record appears twice in a chain (the chain is acyclic) |
| `SonLibExcept.FreeOrderLength` | impl/sonLibExcept.c:50-58 | freeing null releases nothing; freeing a record with N causes releases 2 * (N + 1) blocks |
| `SonLibExcept.FreeOrderAt` | impl/sonLibExcept.c:50-58 | the release order goes from the root cause up to the record, and each record's message is freed just before the record |
| `SonLibExcept.FreeOrderExactlyOnce` | impl/sonLibExcept.c:50-58 | the message and the record of every chain node are released exactly once, and no block outside the chain is released |
| `SonLibExcept.Runtime.constructor` | impl/sonLibExcept.c:19 | at start-up there is no enclosing context, no record is allocated and nothing is freed |
| `SonLibExcept.Runtime.New` | impl/sonLibExcept.c:21-34 | a fresh, allocated record with the given id and message and no cause (calloc zeroes `cause`); its chain has length 1 |
| `SonLibExcept.Runtime.NewCause` | impl/sonLibExcept.c:36-48 | a fresh, allocated record with the given id and message whose cause is the given one; the chain is one longer than the cause's and holds the cause's nodes (ownership moves in) |
| `SonLibExcept.Runtime.Free` | impl/sonLibExcept.c:50-58 | a no-op on null; otherwise it removes every node of the chain from the allocated set, and the release log grows by the post-order free sequence; the recursion terminates |
| `SonLibExcept.Runtime.Throw` | impl/sonLibExcept.c:72-79 | takes a non-null record; with no context the outcome is fatal with the record's id and message and nothing changes; otherwise the record is stored in the top context's slot and control jumps there with code 1; it never returns normally |
| `SonLibExcept.Runtime.ThrowNew` | impl/sonLibExcept.c:81-87 | exactly New followed by Throw: the thrown record is fresh, has the given id and message and no cause, and reaches the context or the fatal report |
| `SonLibExcept.Runtime.ThrowNewCause` | impl/sonLibExcept.c:89-95 | exactly NewCause followed by Throw: the thrown record wraps the given cause |

## Left out

- Message formatting: `stSafeCDynFmtv` and the `va_list` variants are foreign helpers. The model takes the message as an already formatted string, so `stExcept_new` and `stExcept_newv` are one operation, and so are `stExcept_newCause` and `stExcept_newCausev`.
- Allocation: `stSafeCCalloc` and `stSafeCFree` are foreign. Allocation is infallible, and the allocator is modelled only as the ghost `live` set and `released` log.
- `stSafeCErr`: it prints `Exception: <id>: <msg>` and terminates the process. The model keeps only the terminal `Fatal(id, msg)` outcome, not the printed text or the termination.
- `setjmp`/`longjmp`: the jump is the `Jumped` outcome, not real control flow. The saved `jmp_buf` is not modelled.
- Pushing and popping protected regions: that code is in `sonLibExcept.h`, which is not part of this model. Callers set `Runtime.tos` directly.
- Thread safety: `_cexceptTOS` is one process-wide pointer, not thread-local. The model has one `Runtime` with a single owner.
- `SonLibExcept.Runtime.Throw`: the C `assert(except != NULL)` becomes the non-null parameter type. Behaviour when assertions are compiled out is not modelled.
- `SonLibExcept.Runtime.Free`: it requires every chain node to be allocated. A double free is excluded: that covers freeing a record whose cause was already freed, and freeing two records that share a cause. Freeing a cause that another record still points to is allowed, as in C, and leaves that record impossible to free.
- `C/impl/sonLibKVDatabasePrivate.h`: a table of function pointers whose backends (Tokyo Cabinet, MySQL, PostgreSQL) are not part of this model.
- `C/impl/judy-1.0.5/sonLibJudySLArray.h`: only declarations of wrappers over the external Judy library.
- `C/inc/sonLib.h`: an include list with no logic.
