# create-for-rbac argument builder

This project models how `createServicePrincipalAndAssignRole` builds the argument list for
`az ad sp create-for-rbac`. It starts from the creation parameters (`name`, `role`, `scopes`,
`years`, `jsonAuth`, `sdkAuth`, all optional) and the optional `extraArgs` of the second
argument. The result is a list of tokens:

- the fixed prefix `ad sp create-for-rbac`;
- one segment per field, each guarded by a JavaScript truthiness test, in the order
  name, role, scopes, years, json-auth, sdk-auth;
- the caller's `extraArgs`, copied verbatim.

Three modules:

- `Wrappers`: the `Option` type. `None` stands for an absent (`undefined`) property.
- `Decimal`: `IntToDecimal`, the text that `years.toString()` gives for a safe integer. It is paired
  with `DecimalValue`, which reads such a text back. Both round trips are proved.
- `CreateForRbac`: `BuildArgs` mirrors the source's `const` bindings and the final spread, one
  function per segment (`NameArgs` … `SdkAuthArgs`, `ExtraArgs`). `FieldSwitch` restates the same
  segments as a per-field table: each field maps to the command-line switch it emits (a flag token
  and its values), or to nothing. `BuildArgs` is proved equal to a fold over that table, so the
  lemmas can speak of any field at once. They cover where each switch
  lands, that switches follow field order without overlapping, what removing a field changes,
  and how often each flag token occurs.

The truthiness tests follow the code:

- an empty `name` or `role` is dropped;
- `years = 0` is dropped, while a negative `years` is emitted (for example `-1`);
- `[]` is truthy at src/libs/create-for-rbac.ts:134, so an empty scopes array still emits a lone
  `--scopes` (`CreateForRbac.EmptyScopesKeepFlag`);
- `jsonAuth` and `sdkAuth` are tested separately, so both flags can appear together.

## Model

| member | source | states |
|---|---|---|
| `CreateForRbac.PrefixAndSuffix` | src/libs/create-for-rbac.ts:138-141 | Every argument list starts with exactly `ad`, `sp`, `create-for-rbac` and ends with `option?.extraArgs ?? []`, unchanged and in the caller's order |
| `CreateForRbac.BuildArgs` | src/libs/create-for-rbac.ts:132-141 | The argument list equals the prefix, then the switch of every truthy field from the per-field table in field order, then the extra arguments; `PrefixAndSuffix`, `SwitchAt`, `SwitchesInOrder`, `FieldContribution`, `FlagCount` and `BuildArgsLength` state what that means for positions, order, contributions, counts and length |
| `CreateForRbac.ExtraArgs` | src/libs/create-for-rbac.ts:138 | `option?.extraArgs ?? []`: the caller's list when both `option` and `extraArgs` are present, otherwise the empty list; `PrefixAndSuffix` and `ExtraArgsFollowSwitches` place it last, verbatim |
| `CreateForRbac.TableArgsInFieldOrder` | src/libs/create-for-rbac.ts:132-137 | Reading the switch table in field order gives the six segments of the source in turn |
| `CreateForRbac.SwitchMatchesSegment` | src/libs/create-for-rbac.ts:132-137 | Each field's table switch (flag followed by its values, or nothing) is exactly the segment the source builds for that field |
| `CreateForRbac.FieldSwitch` | src/libs/create-for-rbac.ts:132-137 | A field that emits a switch emits it under that field's own flag token |
| `CreateForRbac.BuildArgsAround` | src/libs/create-for-rbac.ts:141 | The list splits around any field into the tokens of the fields before it, its own switch, and the later fields plus the extra arguments |
| `CreateForRbac.SwitchAt` | src/libs/create-for-rbac.ts:132-141 | Each field's switch tokens appear contiguously, in their given order, starting at that field's offset |
| `CreateForRbac.SwitchesInOrder` | src/libs/create-for-rbac.ts:141 | A field earlier in the order name, role, scopes, years, json-auth, sdk-auth has its whole switch before the start of any later field's switch |
| `CreateForRbac.ExtraArgsFollowSwitches` | src/libs/create-for-rbac.ts:137-141 | The extra arguments begin right where the sdk-auth segment ends, so they follow every switch |
| `CreateForRbac.FieldContribution` | src/libs/create-for-rbac.ts:132-137 | Removing a field from the parameters removes exactly that field's switch tokens at its offset and changes nothing else; a falsy field contributes nothing |
| `CreateForRbac.FlagCount` | src/libs/create-for-rbac.ts:132-141 | If no value supplied by the caller is spelled like a flag, each flag token occurs exactly once when its field is truthy and never otherwise (both directions) |
| `CreateForRbac.DecimalIsNotFlag` | src/libs/create-for-rbac.ts:135 | The decimal text of `years` can never be mistaken for a flag token |
| `CreateForRbac.BuildArgsLength` | src/libs/create-for-rbac.ts:132-141 | The length is 3, plus 2 each for a truthy name, role or years, plus 1 plus the number of scopes for any scopes array, plus 1 per true auth flag, plus the number of extra arguments |
| `CreateForRbac.NameAfterPrefix` | src/libs/create-for-rbac.ts:132-141 | A non-empty name puts `--name`, name immediately after the prefix; an absent or empty name gives the same list as no name at all |
| `CreateForRbac.EmptyScopesKeepFlag` | src/libs/create-for-rbac.ts:134 | An empty scopes array still emits a lone `--scopes` at the scopes offset, making the list one token longer than with scopes absent |
| `CreateForRbac.YearsAsDecimal` | src/libs/create-for-rbac.ts:135 | A non-zero `years` gives `--years` followed by a canonical decimal text whose value is `years` |
| `CreateForRbac.YearsSwitchAt` | src/libs/create-for-rbac.ts:135 | A non-zero `years` gives `--years` followed by `IntToDecimal(years)` (its `toString()` for a safe integer) at the years offset |
| `CreateForRbac.BothAuthFlags` | src/libs/create-for-rbac.ts:136-137 | With `jsonAuth` and `sdkAuth` both true, `--json-auth` and `--sdk-auth` are the two tokens just before the extra arguments, in that order |
| `CreateForRbac.OnlyName` | src/libs/create-for-rbac.ts:132-141 | With only a non-empty name and no extra arguments, the list is exactly `ad sp create-for-rbac --name <name>` |
| `Decimal.IntToDecimal` | src/libs/create-for-rbac.ts:135 | The result is a canonical decimal text (optional `-`, no leading zeros, no `-0`) that reads back as the same integer; for a safe integer (magnitude at most 2^53 - 1) this is `years.toString()` |
| `Decimal.NatToDecimal` | src/libs/create-for-rbac.ts:135 | The digits of a natural number form a canonical digit string whose value is that number |
| `Decimal.NatToDecimalOfValue` | src/libs/create-for-rbac.ts:135 | Every canonical digit string is exactly the text written for its own value |
| `Decimal.IntToDecimalOfValue` | src/libs/create-for-rbac.ts:135 | Every canonical signed decimal text is exactly `IntToDecimal` of its value, so the conversion is a bijection onto canonical texts |
| `Decimal.IntToDecimalInjective` | src/libs/create-for-rbac.ts:135 | Different `years` values give different `--years` value tokens |

## Left out

- The `execa('az', …, option?.execaOption)` call (src/libs/create-for-rbac.ts:139-143) is not modelled. It spawns a process asynchronously, and both its options and the tool's behaviour are opaque. Process errors pass through to the caller unchanged.
- `JSON.parse(stdout) as ServicePrincipalResult<TJsonAuth>` (src/libs/create-for-rbac.ts:144) is not modelled. It is a standard-library parse plus a compile-time cast with no runtime check.
- The result type `ServicePrincipalResult<TJsonAuth>` and the interfaces with their endpoint defaults (src/libs/create-for-rbac.ts:6-109) are not modelled. They exist only at the type level and have no runtime behaviour.
- `execaOption` is not a field of `InvocationOptions`, because it only travels to the process runner.
- Decimal.IntToDecimal: matches `years.toString()` only for safe integers, magnitude at most 2^53 - 1. `years` is an unbounded integer here, so it also admits values no JavaScript number holds. Above 2^53 JavaScript writes the shortest digits that read back as the same double, padded with zeros (`(2**60).toString()` is `1152921504606847000`), and from 10^21 on it uses exponent form; the model writes every digit exactly. Non-integer numbers and `NaN` (which is falsy) are not modelled either.
- A property set to `null` behaves like an absent one in every test here, and `None` covers both. Values whose runtime type differs from the declared one (a number passed as `name`, say) are not modelled.
- How `az` reads a lone `--scopes` or a repeated auth flag is the external tool's business and is not modelled.
