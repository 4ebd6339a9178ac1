# Phone-number and logo extraction, modelled in Dafny

`extract.py` is a command-line tool that loads one web page in a headless browser. It makes two `print` calls:

- the phone-number-like strings found in the page text;
- the URL of an image that looks like the site's logo.

This project models the deterministic logic around the browser and the HTML parser:

- **`PhoneNumbers` (phone.dfy):** the post-processing `extPhoneNum` applies to the raw matches of its regular expression. `Clean` models `re.sub(r"[^0-9+()\s]", " ", m)`. The length filter 6..18 comes next, as `Keep` (extract.py:54). `ExtPhoneNum` runs the loop that collects survivors into a set and prints them joined with `", "`, or `"None"`. Python's `\s` is modelled as the code points for which `str.isspace()` holds. The iteration order of the set is not specified, so `Enumerate` picks an arbitrary order. The contracts pin the printed line to `PhoneLine(order)`. That is the `", "`-join of a duplicate-free iteration order of the set, or `"None"` when the set is empty. They also prove the round trip `SplitAtSeparators(line) == order`, which holds because a cleaned string never contains a comma.
- **`LogoUrl` (logo.dfy):** `extLogoUrl`'s first-match scan. `Candidates` models BeautifulSoup's attribute filter: the `src` must be present, non-empty and end case-sensitively in `.png`, `.jpg`, `.jpeg`, `.webp` or `.svg`. `EncodeSpaces` models `.replace(" ", "%20")`. `ContainsLogo` models the case-insensitive search for `logo`. `LogoLine` models the final `print(logo_url if logo_url else "None")` (extract.py:82). `ExtLogoUrl` is the loop with its early `break`. `LogoOf` is the specification function the loop is proved against. URL resolution (`urljoin`) is a caller-supplied `Resolver` function.
- **`Cli` (cli.dfy):** the argument-count check of the entry point (`Dispatch`) and `main` (`Main`). Both return an `Action`. `IsHelp` is the test `argv in ['-h', '--help']` (extract.py:120). `StartsWithHttp` is `argv[:4] == 'http'` (extract.py:122). `UsageText` holds the six strings `printUsage` prints (extract.py:16-21). `Run` composes a whole invocation: its result is the argument of every `print` call, in order. The browser session plus HTML parser is a caller-supplied `fetch` function from a URL to a `Page`. A `Page` holds the raw phone matches and the `<img>` `src` values.
- **`Text` (text.dfy):** `IndexOf`, Python's `str.join` (`Join`), and its inverse for comma-free parts (`SplitAtSeparators`).
- **`Optional` (optional.dfy):** the `Option` datatype.

Three details of the code are easy to misread:

- The complaint for an argument that does not start with "http" is `"Not a validurl."`, with no space between the last two words (extract.py:125).
- Cleaning replaces each disallowed character with one space. It does not delete it, so the length filter sees the cleaned string at its original length (extract.py:53).
- The `if src:` test inside the logo loop can never fail after the `find_all` filter. The model keeps it as a branch (extract.py:76).

## Model

| member | source | states |
|---|---|---|
| PhoneNumbers.Clean | extract.py:53 | the cleaned string has the raw match's length, keeps every digit, `+`, `(`, `)` and whitespace character where it was, and has exactly one space where each other character was; every character of the result is allowed |
| PhoneNumbers.CleanFixedPoints | extract.py:53 | cleaning leaves a string unchanged exactly when all its characters are allowed, so cleaning twice is the same as cleaning once |
| PhoneNumbers.PhoneSet | extract.py:51-55 | every element of the collected set has length 6..18 and consists only of allowed characters |
| PhoneNumbers.PhoneSetMembers | extract.py:51-55 | a string is in the set exactly when it is the cleaned form of some raw match and its length is between 6 and 18 |
| PhoneNumbers.PhoneSetOrderInsensitive | extract.py:51-55 | two match lists with the same distinct elements give the same set, whatever their order or multiplicity |
| PhoneNumbers.PhoneLineDecodes | extract.py:57-60 | the printed line is "None" exactly when nothing survived; otherwise cutting it at ", " gives back the joined strings in order |
| PhoneNumbers.KeptLineBreak | extract.py:53-55 | `'\n'` and `'\r'` are kept by cleaning, and a raw match made only of allowed characters with length 6..18 (such as `"555\n123 4567"`) is kept unchanged, so the phone `print` can span several output lines |
| PhoneNumbers.Enumerate | extract.py:58 | the set's iteration order lists every element exactly once and nothing else |
| PhoneNumbers.ExtPhoneNum | extract.py:50-60 | the loop collects exactly `PhoneSet(matches)`; the printed line is "None" exactly when that set is empty, and otherwise splits back into each element of the set exactly once |
| Text.Join | extract.py:58 | the joined line starts with the first part, and each of its characters comes from the separator or from one of the parts |
| Text.SplitJoin | extract.py:58 | joining comma-free parts with ", " and splitting again returns the same parts |
| LogoUrl.Candidates | extract.py:74 | every `src` the filter yields is present, non-empty and ends in one of the five extensions, and there are no more of them than images |
| LogoUrl.CandidatesComplete | extract.py:74 | every image whose `src` is present, non-empty and ends in one of the five extensions is yielded by the filter |
| LogoUrl.CandidatesAppend | extract.py:74 | filtering keeps document order: the candidates of a concatenation are the concatenated candidates |
| LogoUrl.EncodeSpaces | extract.py:77 | the encoded URL contains no space, is unchanged if there was no space, and is never shorter |
| LogoUrl.DecodeEncode | extract.py:77 | decoding "%20" back to spaces recovers any URL that had no '%' |
| LogoUrl.FirstLogo | extract.py:73-80 | a found URL contains "logo" in some letter case, contains no space, and is the encoded resolution of one of the candidates |
| LogoUrl.LogoOfCons | extract.py:74-80 | one scan step: the first image gives the result if it passes both filters, otherwise the rest of the page decides |
| LogoUrl.LogoOfNone | extract.py:73-82 | no logo is found exactly when no image passes both the extension and the "logo" filter |
| LogoUrl.LogoOfFirst | extract.py:73-80 | the first image in document order that passes both filters gives the result, as its resolved and space-encoded URL |
| LogoUrl.LeastQualifying | extract.py:73-80 | if some image passes both filters, a first such image exists at or before it |
| LogoUrl.LogoOfIsFirstQualifying | extract.py:73-82 | the result is None exactly when no image qualifies; otherwise it is the URL of the first qualifying image |
| LogoUrl.FirstLogoIgnoresLater | extract.py:78-80 | once a candidate prefix yields a logo, appending more candidates does not change it |
| LogoUrl.LaterImagesIgnored | extract.py:74-80 | images after a prefix that already yields a logo have no influence on the result |
| LogoUrl.ExtLogoUrl | extract.py:73-82 | the `break` loop prints `LogoOf`'s URL or "None"; the line has no space, is "None" exactly when no image qualifies, and otherwise contains "logo" |
| Cli.Main | extract.py:120-126 | `-h`/`--help` gives usage only and never extracts; other arguments extract exactly when their first four characters are "http", and everything else gives "Not a validurl." then usage |
| Cli.Dispatch | extract.py:133-140 | zero arguments give "There is no argument.", two or more give "To many arguments.", exactly one goes to `main`; extraction happens exactly for one non-help argument starting with "http" |
| Cli.Run | extract.py:85-140 | usage alone for help; complaint then the six usage prints for errors; on extraction, when the browser and `urljoin` do not raise, exactly two `print` calls: the phone line, which is the `", "`-join of the returned iteration order of the phone set (each surviving string once, "None" exactly when none survives), and the logo line |

## Left out

- Selenium: the browser options, `implicitly_wait`, `get`, `page_source` and `quit`. This is external I/O and process management, so `Run` takes it as the `fetch` parameter.
- BeautifulSoup: parsing, `soup.text` and `find_all`. This is a foreign library. Its results are the `Page` fields.
- The phone regular expression itself, with its `findall` semantics and lookahead. Its matches are an input.
- `urllib.parse.urljoin`: reference resolution as described in section 5.2 of RFC 3986. It is the `Resolver` parameter, so the resolution round trip of a relative path is not modelled.
- Cli.Run: counts `print` calls, not output lines. A kept phone string may contain `'\n'`, `'\r'` or another `str.isspace()` line break, because `[0-9+()\s]` keeps them (extract.py:53). So the output can span more than two lines (see `PhoneNumbers.KeptLineBreak`).
- Cli.Run: `fetch` and `resolve` are modelled as always succeeding. Two kinds of failure are therefore not modelled. The first is the browser's fatal errors in `webdriver.Chrome`, `get` and `page_source`, which leave the run before anything is printed and skip `quit` (extract.py:101-105). The second is `urljoin`'s `ValueError` for a malformed `src` such as `//[abc/logo.png` (extract.py:77), which ends the run after the phone line has been printed.
- The order in which `", ".join` iterates the Python set. This order is unspecified, so `Enumerate` chooses arbitrarily and the contracts are stated in terms of set membership.
- `print` side effects and stdout encoding. Every `print` call is modelled as one returned string.
- LogoUrl.ContainsLogo: models the case-insensitive search with ASCII case folding only. This is exact for the letters l, o and g, because Python's IGNORECASE adds no other characters for them.
