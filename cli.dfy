/** The command line of extract.py: the argument-count check of the script's entry
    point (extract.py:133-140), `main` (extract.py:120-126) and what gets printed.
    Every `print` call is one element of the returned sequence. */
module Cli {
  import opened Optional
  import Text
  import PhoneNumbers
  import LogoUrl

  /** The arguments of the six `print` calls of `printUsage`. */
  const UsageText: seq<string> := [
    "\n",
    "Pass an url of a website as an only argument to exatract logo url and phone number.",
    "Options:",
    "  -h or --help:      shows this help",
    "  <web page url>:    e.g. https://www.zaba.hr/home/en",
    "\n"
  ]

  const NoArgument: string := "There is no argument."
  const TooManyArguments: string := "To many arguments."
  const NotAUrl: string := "Not a validurl."

  /** What one invocation does: print the usage text only, extract from a URL,
      or print a complaint followed by the usage text. */
  datatype Action = ShowUsage | Extract(url: string) | Complain(message: string)

  predicate IsHelp(arg: string) {
    arg == "-h" || arg == "--help"
  }

  /** `argv[:4] == 'http'`: a shorter argument gives a shorter slice, which differs. */
  predicate StartsWithHttp(arg: string) {
    |arg| >= 4 && arg[..4] == "http"
  }

  /** `main(argv)` for the single argument. */
  function Main(arg: string): (a: Action)
    ensures a == ShowUsage <==> IsHelp(arg)
    ensures a.Extract? <==> !IsHelp(arg) && StartsWithHttp(arg)
    ensures a.Extract? ==> a.url == arg
    ensures a.Complain? ==> a.message == NotAUrl
  {
    if IsHelp(arg) then ShowUsage
    else if StartsWithHttp(arg) then Extract(arg)
    else Complain(NotAUrl)
  }

  /** The entry point's check on `sys.argv[1:]`. */
  function Dispatch(args: seq<string>): (a: Action)
    ensures a.Extract? <==> |args| == 1 && StartsWithHttp(args[0]) && !IsHelp(args[0])
    ensures a.Extract? ==> a.url == args[0]
    ensures a == ShowUsage <==> |args| == 1 && IsHelp(args[0])
    ensures a == Complain(NoArgument) <==> |args| == 0
    ensures a == Complain(TooManyArguments) <==> |args| >= 2
    ensures a == Complain(NotAUrl) <==> |args| == 1 && !IsHelp(args[0]) && !StartsWithHttp(args[0])
  {
    if |args| == 1 then Main(args[0])
    else if |args| < 1 then Complain(NoArgument)
    else Complain(TooManyArguments)
  }

  /** What the browser and BeautifulSoup deliver for one page: the raw matches of
      the phone pattern over the page text, and the `src` attribute of every `<img>`
      element in document order (None where the attribute is absent). */
  datatype Page = Page(phoneMatches: seq<string>, imageSources: seq<Option<string>>)

  /** One run of the script, from its arguments to the arguments of every `print`.
      `fetch` stands for the browser session and the HTML parser, `resolve` for `urljoin`.
      `phoneOrder` is the order in which the phone set was iterated when extracting. */
  method Run(args: seq<string>, fetch: string -> Page, resolve: LogoUrl.Resolver)
    returns (printed: seq<string>, phoneOrder: seq<string>)
    ensures Dispatch(args) == ShowUsage ==> printed == UsageText
    ensures Dispatch(args).Complain? ==> printed == [Dispatch(args).message] + UsageText
    ensures Dispatch(args).Extract? ==>
      var page := fetch(args[0]);
      var found := PhoneNumbers.PhoneSet(page.phoneMatches);
      |printed| == 2
      && PhoneNumbers.NoDup(phoneOrder)
      && (forall x :: x in phoneOrder <==> x in found)
      && printed[0] == PhoneNumbers.PhoneLine(phoneOrder)
      && (printed[0] == "None" <==> found == {})
      && (printed[0] != "None" ==>
            PhoneNumbers.NoDup(Text.SplitAtSeparators(printed[0]))
            && forall x :: x in Text.SplitAtSeparators(printed[0]) <==> x in found)
      && printed[1] == LogoUrl.LogoLine(LogoUrl.LogoOf(page.imageSources, args[0], resolve))
  {
    match Dispatch(args)
    case ShowUsage =>
      printed, phoneOrder := UsageText, [];
    case Complain(message) =>
      printed, phoneOrder := [message] + UsageText, [];
    case Extract(url) =>
      var page := fetch(url);
      var phoneLine, order := PhoneNumbers.ExtPhoneNum(page.phoneMatches);
      var logoLine := LogoUrl.ExtLogoUrl(page.imageSources, url, resolve);
      printed, phoneOrder := [phoneLine, logoLine], order;
  }
}
