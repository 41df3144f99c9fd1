# libssh misc.c in Dafny

This project models the self-contained helpers in libssh's `misc.c` and
proves properties of them:

- **`ssh_list`**: the generic singly-linked list that the rest of the
  library builds on, for example for chains of packet callbacks. A list has
  a `root` and an `end` pointer. Its cells (`struct ssh_iterator`) each hold
  a `next` pointer and an opaque `data` pointer. The list never owns the
  data. The model is the class `SshList.List`, with cells of class
  `SshList.Iterator`. Its abstract state is the ghost sequence `Nodes` of
  cells, root first. `Valid()` states the list invariant:
  - `root` and `end` are null exactly when the list is empty;
  - `root` is the first cell and `end` the last;
  - each cell's `next` is the following cell, and the last cell's `next` is null;
  - no cell occurs twice, so there is no cycle.

  Every method states how it changes `Nodes`. Removal finds its cell by
  pointer identity, so it is specified against the reference function
  `SshList.RemoveNode` on cell sequences. The lemmas about that function
  say what removal does to the list.
- **`ssh_dirname` and `ssh_basename`**: loop methods over an immutable
  path. Each is proved equal to a function (`DirnameOf`, `BasenameOf`)
  built from where the backward `len` walks stop (`SkipSlashes`,
  `SkipName`). Lemmas then describe both functions without those walks.
  They use a split of the path into "before the last name", "the last
  name" and "trailing slashes".
- **`ntohll`**: a function on `bv64`. It is proved equal, on a
  little-endian host, to an independent byte-reversal definition, and the
  identity on a big-endian host. It is proved to be an involution, and to
  turn eight bytes in network order, as loaded by either kind of host, into
  their big-endian value.

Modelling choices:

- A C string is the sequence of its characters before the terminating NUL,
  and a NULL pointer is `None` (module `Wrappers`).
- Whether `malloc`/`strdup` succeeds is a boolean parameter `allocOk`. When
  it is false, the operation takes its NULL / `SSH_ERROR` return path.
- The host's byte order (`WORDS_BIGENDIAN`, a build-time setting) is the
  parameter `hostBigEndian`. `ntohl` on a little-endian host is a 32-bit
  byte swap (`ByteOrder.Bswap32`).
- `SSH_OK` is 0 and `SSH_ERROR` is -1, as in libssh's public header. That
  header is not part of this model.
- The model follows the code where it differs from the documentation:
  - `ssh_basename`'s doc comment says trailing slashes are not counted.
    Yet `ssh_basename("abc/")` returns `"abc/"`: with no slash before the
    last name, the code returns a copy of the whole path (misc.c:335-336).
  - `ssh_dirname("//x")` returns `""`, because the last walk strips every
    slash before the name (misc.c:284).
- `_ssh_list_get_head` returns NULL both for an empty list and for a cell
  whose data is NULL. The model returns `Option<T>`, which tells these
  apart; `None` stands for the empty-list return.

## Model

| member | source | states |
|---|---|---|
| `ByteOrder.Ntohll` | libssh/misc.c:112-123 | identity on a big-endian host; on a little-endian host byte k of the result is byte 7-k of the argument (`ByteReversed`) |
| `ByteOrder.NtohllInvolution` | libssh/misc.c:112-123 | converting twice gives back the argument, on either host |
| `ByteOrder.NtohllReadsNetworkOrder` | libssh/misc.c:112-123 | eight bytes in network order, read as a word by either kind of host and then converted, give their big-endian value |
| `SshPath.SkipSlashes` | libssh/misc.c:267 | the backward walk stops at the largest m <= n with s[m-1] not a slash (or m = 0), and s[m..n] is all slashes |
| `SshPath.SkipName` | libssh/misc.c:275 | the backward walk stops at the largest m <= n with s[m-1] a slash (or m = 0), and s[m..n] has no slash |
| `SshPath.SkipSlashesAt` | libssh/misc.c:267 | the slash walk's stopping point is the only index with those two properties |
| `SshPath.SkipNameAt` | libssh/misc.c:275 | the name walk's stopping point is the only index with those two properties |
| `SshPath.DirnameOf` | libssh/misc.c:256-295 | the dirname is "." or a prefix of the path, and ends in a slash only when it is "/" |
| `SshPath.Dirname` | libssh/misc.c:256-295 | the three `len` loops and the copy return `DirnameOf(path)`, or NULL when allocation fails |
| `SshPath.BasenameOf` | libssh/misc.c:310-348 | the basename is ".", "/" or a non-empty contiguous piece of the path |
| `SshPath.Basename` | libssh/misc.c:310-348 | the `len` loops and the copy return `BasenameOf(path)`, or NULL when allocation fails |
| `SshPath.SplitWalks` | libssh/misc.c:266-275 | on a split path a + b + t, the first walk stops after b and the second before b |
| `SshPath.SplitExists` | libssh/misc.c:266-275 | every non-empty path that is not all slashes has such a split |
| `SshPath.DegeneratePaths` | libssh/misc.c:260-272 | NULL and "" give "." for both helpers, and a path of only slashes gives "/" for both |
| `SshPath.DirnameOfSplit` | libssh/misc.c:274-294 | dirname is "." when nothing precedes the last name, "/" after a single slash, else the part before the name with its trailing slashes removed |
| `SshPath.BasenameOfSplit` | libssh/misc.c:328-347 | basename is the whole path, trailing slashes included, when nothing precedes the last name, else exactly the last name, which has no slash |
| `SshPath.DirnameBasenameRebuild` | libssh/misc.c:256-348 | when a slash precedes the last name, the path is dirname + slashes + basename + trailing slashes |
| `SshPath.DirnameDoubleSlashQuirk` | libssh/misc.c:283-284 | `ssh_dirname("//x")` is "" |
| `SshPath.BasenameTrailingSlashQuirk` | libssh/misc.c:335-336 | `ssh_basename("abc/")` is "abc/" |
| `SshPath.DirnameRootExample` | libssh/misc.c:279-280 | `ssh_dirname("/x")` is "/" |
| `SshPath.DirnameExample` | libssh/misc.c:283-292 | `ssh_dirname("usr/lib/")` is "usr" |
| `SshPath.BasenameExample` | libssh/misc.c:330-346 | `ssh_basename("/usr/lib//")` is "lib" |
| `SshList.Iterator.constructor` | libssh/misc.c:184-185 | a new cell holds the data and has a null `next` |
| `SshList.List.constructor` | libssh/misc.c:161 | a new list is valid, empty, with null `root` and `end` |
| `SshList.List.New` | libssh/misc.c:157-163 | `ssh_list_new` gives a fresh valid empty list, or NULL when allocation fails |
| `SshList.List.GetIterator` | libssh/misc.c:176-178 | the first cell, or NULL for an empty list |
| `SshList.List.NewIterator` | libssh/misc.c:180-187 | a fresh cell holding the data with a null `next`, or NULL when allocation fails |
| `SshList.List.Add` | libssh/misc.c:189-202 | on success SSH_OK, the cells become old + [new cell], the new cell is `end` with null `next` and is also `root` if the list was empty; on allocation failure SSH_ERROR and nothing changes; the invariant is kept |
| `SshList.List.Remove` | libssh/misc.c:204-226 | the cells become `RemoveNode(old cells, it)`; a cell not in the list changes nothing; a removed head moves `root` to its successor; a removed tail makes `end` its predecessor or NULL; the removed cell is no longer owned and its `next` is untouched; the invariant is kept |
| `SshList.List.Unlink` | libssh/misc.c:216-225 | unlinking the cell at index k splices it out of the cells and fixes `root` and `end`, keeping the invariant |
| `SshList.List.GetHead` | libssh/misc.c:228-239 | on an empty list returns none and changes nothing; otherwise returns the first cell's data, the cells become their tail, `root` and `end` become NULL when it was the only cell; the invariant is kept |
| `SshList.List.Free` | libssh/misc.c:165-174 | the walk releases every cell of the list once, root first |
| `SshList.RemoveNodeAt` | libssh/misc.c:205-225 | removing the cell whose first occurrence is at index k leaves the cells before k and after k, in their order |
| `SshList.RemoveNodeAbsent` | libssh/misc.c:212-215 | removing a cell that is not in the list leaves it unchanged |
| `SshList.RemoveNodeExactly` | libssh/misc.c:204-226 | in a list without repeated cells, removal takes out exactly that cell, shortens the list by one, keeps every other cell and repeats none |
| `SshList.RemoveNodeIdempotent` | libssh/misc.c:204-226 | removing the same cell a second time changes nothing |

## Left out

- `ssh_get_user_home_dir` and `ssh_file_readaccess_ok` (misc.c:68-110): they are operating-system calls (`getpwuid`, `access`, `SHGetSpecialFolderPathA`) writing a static buffer.
- `ssh_version` (misc.c:148-155): one comparison against build-time macros whose values are not part of this model.
- `include/libssh/callbacks.h`: function-pointer typedefs, struct layouts, a size-setting macro and the `SSH_PACKET_USED`/`SSH_PACKET_NOT_USED` constants. The code that registers callbacks and dispatches packets through them is not part of this model, so no routing or size-validation behaviour is modelled.
- Deallocation: Dafny has no `free`. `SAFE_FREE` of a removed or popped cell is modelled by dropping the cell from the list's `Repr`. `SshList.List.Free` returns the cells in the order the source releases them; releasing the list object itself is not modelled.
- Allocation internals: `malloc` and `strdup` appear only as the `allocOk` choice between success and the NULL return.
- `SshPath.Dirname`, `SshPath.Basename`: do not model the `unsigned int len` truncation for paths of 2^32 characters or more; paths are unbounded sequences.
- `SshPath.Dirname`, `SshPath.Basename`: the final `strncpy` into the fresh buffer is a sequence slice, not a character loop.
- `SshList.List.GetHead`: returns `Option<T>` where the source returns a possibly NULL data pointer, so a NULL datum is not confused with an empty list.
- Cell data is `const`: no code in misc.c writes `data` after `ssh_iterator_new`.
- Iteration by callers (following `next` from `GetIterator`) is captured by `Valid()` but not written out as an operation, because the iterator-advancing macro is not in misc.c.
