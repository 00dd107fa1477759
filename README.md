# Common utilities of LogCabin (DLog), modelled in Dafny

This project models the generic helpers in `include/Common.h` of the DLog
(LogCabin) repository and proves their contracts:

- `downCast<Small, Large>` and the `sizeof32` macro (module `Narrowing`,
  `narrowing.dfy`). The C++ integer types are modelled by width and
  signedness. `static_cast` is modular reduction into the target range.
  The asserted expression `large - small` is evaluated under C++ integral
  promotion and the usual arithmetic conversions: unsigned subtraction
  wraps, and signed overflow is undefined behaviour. The assertion is the
  precondition of `DownCast`.
- `sorted`, `getKeys`, `getValues`, `getItems` and `hasOnly` (module
  `Containers`, `containers.dfy`). `sorted` sorts an `array<int>` in place
  and returns its contents. Each map is the sequence of its `(key, value)`
  entries in iteration order. A `std::map` is such a sequence with strictly
  ascending keys. The three extractors and `hasOnly` are loops, proved
  against specification functions and predicates.
- Both `isPrintable` overloads (module `Strings`, `strings.dfy`). They are
  predicates over byte sequences taken from their doc-comments. The
  per-byte classification is a parameter `printable: byte -> bool`.

Assumed platform: LP64, so `size_t` is 64-bit unsigned. Conversion to a
signed type is two's-complement wrap-around, as GCC and Clang define it.

The doc-comment of `downCast` (`include/Common.h:55-56`) says it asserts
that no precision is lost. With mixed signedness the assertion still passes
when the value changes: `int` -1 becomes `uint32_t` 4294967295, and the
comment at `include/Common.h:64-65` says conversions between signed and
unsigned values are meant to be allowed. The model follows the code.
`Narrowing.MixedSignednessAccepted` shows the accepted cases. What the check does guarantee in every case is
that casting the result back to `Large` gives the input
(`Narrowing.GuardRoundTrip`). Integral promotion to `int` also makes 8- and
16-bit mixed-sign conversions fail where the same 32-bit conversion passes
(`Narrowing.PromotionRejectsNarrowMixedSignedness`).

## Model

| member | source | states |
|---|---|---|
| Narrowing.Convert | include/Common.h:63 | `static_cast` yields the one value of the target type that is congruent to the input modulo 2^width |
| Narrowing.ConvertKeepsInRange | include/Common.h:63 | a cast leaves a value the target type can hold unchanged |
| Narrowing.Promote | include/Common.h:66 | integral promotion (types narrower than `int` become `int`) keeps every value |
| Narrowing.CommonType | include/Common.h:66 | the common type of `large - small` is at least as wide as both operand types; when it is signed it holds every value of both |
| Narrowing.Subtract | include/Common.h:66 | subtraction in a type: unsigned wraps modulo 2^width, signed overflow is undefined; the difference is 0 exactly when the operands are equal |
| Narrowing.Guard | include/Common.h:63-66 | `large - small` under integral promotion and the usual arithmetic conversions: always defined when the common type is unsigned, and when defined a value of the common type |
| Narrowing.GuardHolds | include/Common.h:66 | `large - small == 0` holds exactly when the input and its cast agree once both are converted to the common type; signed overflow counts as failure |
| Narrowing.DownCast | include/Common.h:54-68 | under the assertion, the result is a `Small` value congruent to the input modulo 2^width of `Small` (the `static_cast`), casting it back to `Large` gives the input, and with equal signedness it equals the input |
| Narrowing.GuardRoundTrip | include/Common.h:63-66 | whenever `large - small == 0` holds, `static_cast<Large>(small) == large` |
| Narrowing.GuardSameSignedness | include/Common.h:63-66 | between types of equal signedness the assertion holds if and only if the value fits in `Small` |
| Narrowing.SizeOf32 | include/Common.h:181-182 | `sizeof32` returns the size unchanged and below 2^32 |
| Narrowing.SizeOf32Guard | include/Common.h:181-182 | the assertion inside `sizeof32` holds if and only if the size is below 2^32 |
| Narrowing.MixedSignednessAccepted | include/Common.h:64-66 | `int` -1 passes as `uint32_t` 4294967295, and `uint32_t` 4294967295 passes as `int` -1 |
| Narrowing.PromotionRejectsNarrowMixedSignedness | include/Common.h:66 | `uint8_t` 255 to `int8_t` fails the assertion although the cast round-trips |
| Containers.SortedUnique | include/Common.h:70-83 | two sorted sequences with the same multiset are equal, so what `sorted` returns depends only on the multiset of its input |
| Containers.Sorted | include/Common.h:70-83 | the container is sorted in place and returned; the result is non-decreasing, a permutation of the input, and an already sorted input is unchanged |
| Containers.SortInPlace | include/Common.h:81 | `std::sort` leaves the array non-decreasing with the same multiset of elements |
| Containers.KeysOfEntries | include/Common.h:85-96 | one key per entry: element i of the keys is the key of entry i |
| Containers.ValuesOfEntries | include/Common.h:98-109 | one value per entry: element i of the values is the value of entry i |
| Containers.GetKeys | include/Common.h:88-96 | the loop returns the keys of all entries in iteration order, one per entry |
| Containers.GetValues | include/Common.h:101-109 | the loop returns the values of all entries in iteration order, one per entry |
| Containers.GetItems | include/Common.h:114-124 | the loop returns a copy of every entry in iteration order, where item i is (key i of getKeys, value i of getValues) |
| Containers.ItemsAreKeyValuePairs | include/Common.h:85-124 | keys, values and entries have equal lengths and entry i is the pair of key i and value i |
| Containers.OrderedMapKeysAscend | include/Common.h:85-96 | for a `std::map` the keys come out strictly ascending |
| Containers.ExtractionMatchesMap | include/Common.h:85-124 | with unique keys, getKeys lists each key of the mapping exactly once, and value i is the mapping's value for key i |
| Containers.HasOnly | include/Common.h:126-137 | true if and only if every element equals the needle (true on an empty container); the invariant is that all elements before the scan position equal the needle |
| Strings.StrLen | include/Common.h:145-154 | the length of a null-terminated string is the position of its first NUL |
| Strings.IsPrintableData | include/Common.h:156-167 | `isPrintable(data, length)`: true if and only if length >= 1, the byte at length-1 is NUL, and every byte before it is printable, so accepted data holds a NUL-terminated string |
| Strings.IsPrintableString | include/Common.h:145-154 | `isPrintable(str)` holds if and only if every byte before the first NUL is printable |
| Strings.PrintableStringReadsToTerminator | include/Common.h:145-154 | `isPrintable(str)` reads nothing past the terminator |
| Strings.PrintableDataReadsOnlyLength | include/Common.h:156-167 | `isPrintable(data, length)` reads nothing at or past `length` |
| Strings.PrintableStringAsData | include/Common.h:145-167 | `isPrintable(str)` equals `isPrintable(str, strlen(str) + 1)` |
| Strings.PrintableDataAsString | include/Common.h:145-167 | if NUL is not printable, data accepted by `isPrintable(data, length)` is a string of length `length - 1` that `isPrintable(str)` accepts |
| Strings.PrintableExamples | include/Common.h:156-167 | `"hello\0"` of length 6 is printable; `"hel\x01lo\0"` of length 8 is not; data not ending in NUL is not; length 0 is not |

## Left out

- `unique<T>(args...)` (include/Common.h:48-52): heap allocation with forwarded constructor arguments and `unique_ptr` ownership. It has no behaviour beyond allocating a fresh object, and ownership has no Dafny counterpart.
- `format` (include/Common.h:139-143): a printf-style varargs function whose body is not shown. Its output depends on the platform's formatting.
- `replaceAll` (include/Common.h:169-179): only the declaration is shown. The doc-comment does not settle overlapping matches, rescanning or an empty needle, so any algorithm would be invented.
- The byte classification behind `isPrintable`: the file that defines it is not part of this model. It is the parameter `printable`.
- Narrowing.DownCast: builds with `NDEBUG`, where the assertion is compiled out and the cast is unchecked, are not modelled.
- Narrowing.CommonType: integer ranks follow widths, so `long` and `long long` (both 64-bit) are not told apart. For subtraction this changes no result.
- Containers.Sorted: the element type is `int` and the container is an `array<int>`. The returned container is modelled by the sequence of its contents. For a general strict weak ordering, equivalent elements may be reordered, so "a sorted input comes back unchanged" would not hold there.
- Containers.SortInPlace: `std::sort`'s algorithm is unspecified. Insertion sort stands in for it, and only its result is claimed.
- Containers.OrderedMapKeysAscend: the ascending-key property is stated for integer keys. The extractors themselves are generic in the key and value types.
- Containers.HasOnly: the needle has the element type, and `!=` is Dafny's equality. The C++ template allows any `Item` with an `operator!=`.
- None of the extractors modifies the map: this holds by construction, since the map is a value parameter (the source passes it by `const` reference).
