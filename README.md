# Interactive page script, modelled in Dafny

`scripts.js` wires seven small behaviours into a static site once the
DOM is loaded, six of which are modelled here (the seventh, `coverDate`,
is left out). With the browser abstracted away, each of the six is
behaviour over plain data, and each is one module here:

- **NavBlob**: the navigation bar's moving highlight. The state is the
  links (their `href` and `active` class) and the `startLink` the
  highlight returns to. It covers start-link selection from the page's
  file name, hover/focus/click/leave/resize handling and the digit-key
  shortcuts.
- **CountUp**: the count-up timer of one counter element. It reads the
  target, computes the step and ticks until it clamps at the target.
- **Tabs**: the tab switcher. A click makes one trigger active and shows
  the first panel whose id is the trigger's `data-tab`.
- **DecisionToggle**: the map from the checked decision level to the
  heading and paragraph shown.
- **RecBuilder**: `updateRecs`, which turns the checked priority keys
  into a list of advisory lines in a fixed order, or into a placeholder.
- **FlipCards**: the Enter/Space toggle of a card's `transform`.

Two support modules sit underneath:

- **JsBuiltins** holds the JavaScript built-ins these six rely on:
  - `Number()` on strings, in the forms the model needs;
  - string `<`;
  - `split`/`pop`;
  - `join`;
  - `find`/`getElementById` as "first match".
- **Flags** counts the elements that carry the `active` class.

### How the model is built

- Code that updates the page in place is a `class` with `seq` fields and
  `modifies` clauses: `Nav`, `TabSet` and `FlipCard`. Each method's
  `ensures` ties the new state to a function of the old state, and
  lemmas prove what the source promises about that function.
- The count-up interval is a `while` loop (`Animate`) proved against the
  functions `TickCount` and `Shown`.
- `updateRecs` keeps its four sequential `push`es. It is proved equal to
  `Output`, a filter over the fixed key order.
- The texts of the recommendation builder are passed in as a `Texts`
  value. The page calls `UpdateRecs` with `SiteTexts`, which holds the
  script's own strings. Every property of the builder holds for any texts
  of that shape. Two lemmas (`LineInjective`, `LinesDetermineSelection`)
  need the four advisory texts to differ, and `SiteTextsDistinct`
  proves that the site's four texts do.

### Behaviour of the code worth knowing

- A trigger whose `data-tab` matches no panel leaves every panel
  inactive, and of several panels with equal ids only the first is shown
  (`Tabs.ClickLeavesOne`).
- Targets below 90 have step 1 and take up to 89 ticks; every target
  finishes within 90 (`CountUp.AtMostNinetyTicks`).
- Two Enter presses restore a card only from the empty or the rotated
  transform; any other starting transform is reset first and does not
  come back (`FlipCards.ToggleForeign`).
- The placeholder appears exactly when no known key is checked, so
  unchecking security and analytics shows it only when no other known
  key is checked (`RecBuilder.PlaceholderWhenNothingChecked`).

## Model

| member | source | states |
|---|---|---|
| JsBuiltins.Split | scripts.js:30 | `split(sep)` gives at least one part, no part contains the separator, and joining the parts with the separator gives back the string |
| JsBuiltins.LastOfSplit | scripts.js:30 | the part `pop()` returns is separator-free, is a suffix of the string, and is preceded by the separator unless it is the whole string |
| JsBuiltins.FindFirst | scripts.js:31 | a found index holds the value and no earlier index does; nothing is found exactly when the value is absent |
| JsBuiltins.ToNumber | scripts.js:67 | the model's exact-integer `Number()` (also the `Number(key)` at line 53): a run of digits reads as its decimal value, the empty string as 0, a '-' before digits as the negated value, a '+' before digits as the value, and the result is NaN exactly when the string is neither digits nor a sign followed by digits |
| JsBuiltins.NumberOfString | scripts.js:67 | in the model's exact-integer reading, `ToNumber` reads back every integer from its decimal rendering `IntToString`; the script's doubles do this only up to 2^53 |
| JsBuiltins.NumberOfNonNumeric | scripts.js:53 | in the model's reading (sign and decimal digits only), a string with a non-digit after its first character reads as NaN; the script itself reads forms such as "1.5", "1e3" or "12 " as numbers |
| JsBuiltins.StrLess | scripts.js:52 | string `<` holds exactly when the strings agree up to some position k, and there the first ends while the second goes on, or the first has the smaller character |
| JsBuiltins.Join | scripts.js:132 | `lines.join('')`; its meaning is fixed by the round trip in `Split` (joining the parts with the separator gives back the string) and by `JoinSnoc`, which splits off the last part |
| JsBuiltins.StrLessTrichotomy | scripts.js:52 | string `<` is irreflexive, asymmetric and total on distinct strings |
| NavBlob.FileName | scripts.js:30 | the current file name is never empty; it is `index.html` when the path is empty or ends in '/', otherwise the path's last '/'-segment |
| NavBlob.StartIndex | scripts.js:31 | the start link is the first link whose href equals the file name, or link 0 when none does |
| NavBlob.Activated | scripts.js:25-26 | after `moveBlobTo(i)` every href is kept and a link is active exactly when it is link `i` |
| NavBlob.ActivatedLeavesOne | scripts.js:25-26 | after `moveBlobTo(i)` exactly one link is active |
| NavBlob.MoveTwice | scripts.js:37-40 | moving the highlight to one link and then to another equals moving it straight to the second |
| NavBlob.InDigitRange | scripts.js:52 | the key test `key >= '1' && key <= '6'` as two string comparisons; `DigitRangeCharacterized` states which keys pass it |
| NavBlob.DigitRangeCharacterized | scripts.js:52 | `key >= '1' && key <= '6'` holds exactly for keys starting with '1'..'5' and for "6" itself |
| NavBlob.ShortcutTarget | scripts.js:50-54 | a shortcut fires only outside INPUT/TEXTAREA, for a key passing the test, naming link `Number(key) - 1`, which exists; every such key fires |
| NavBlob.ShortcutOnCharacter | scripts.js:50-54 | a one-character key '1'..'6' outside a text field selects link `key - 1` when it exists, and any other character selects nothing |
| NavBlob.ShortcutNotANumber | scripts.js:52-54 | in the model's reading, a key that passes the string test but is not a number (such as "1x") selects nothing; keys such as "1.0" or "1 ", which the script reads as 1, are outside the model's `Number()` |
| NavBlob.Nav.constructor | scripts.js:29-33 | at load the start link is the page's link and it alone is active |
| NavBlob.Nav.MoveBlobTo | scripts.js:25-26 | the clearing loop plus the final set leave the links as `Activated(old links, i)`; `startLink` is untouched |
| NavBlob.Nav.Point | scripts.js:37-38 | hover or focus moves the highlight to the link, keeps `startLink`, and keeps exactly one link active |
| NavBlob.Nav.Click | scripts.js:42-45 | a click makes the link the start link and the only active link |
| NavBlob.Nav.Return | scripts.js:40 | leaving the bar (and, identically, a resize at line 59) puts the highlight back on `startLink`, which is unchanged |
| NavBlob.Nav.KeyDown | scripts.js:49-56 | a shortcut acts as a click on its link; any other key leaves the links and `startLink` as they were |
| CountUp.TargetOf | scripts.js:67 | `+data-target \|\| 0`: a missing or non-numeric attribute gives 0, a numeric one gives its value |
| CountUp.TargetOfDecimal | scripts.js:67 | in the model's exact-integer reading, a target written in decimal is read back unchanged |
| CountUp.Round60 | scripts.js:69 | `Math.round(t / 60)` is the integer within half a unit of t/60, halves going up |
| CountUp.Step | scripts.js:69 | the step is at least 1; it is the nearest integer to target/60 for targets from 30, and 1 below |
| CountUp.TickCount | scripts.js:70-72 | the timer fires at least once |
| CountUp.Shown | scripts.js:71-73 | a written value never exceeds the target, and is either the target or k steps |
| CountUp.TickCountIsCeiling | scripts.js:70-72 | for a positive target the tick count is ceil(target / step) |
| CountUp.LastTick | scripts.js:71-72 | the tick at which `n` first reaches the target is the last one |
| CountUp.EndsAtTarget | scripts.js:72-73 | the last tick writes exactly the target and every earlier tick writes less |
| CountUp.ShownIncreases | scripts.js:71-73 | the written values strictly increase from tick to tick |
| CountUp.AtMostNinetyTicks | scripts.js:69-72 | every target finishes within 90 ticks |
| CountUp.Animate | scripts.js:66-75 | the interval loop writes `TickCount(target)` values, the k-th being `Shown(target, k)` |
| Tabs.PanelById | scripts.js:86 | `getElementById` finds the first panel with the id, and finds nothing exactly when no panel has it |
| Tabs.SameIdsSamePanel | scripts.js:86 | the lookup depends only on the panels' ids, so clearing the `active` flags does not change which panel is found |
| Tabs.Selected | scripts.js:82-84 | after a click on trigger t, every `data-tab` is kept and a trigger is active exactly when it is t |
| Tabs.Shown | scripts.js:83-87 | after a click, every id is kept and a panel is active exactly when it is the one `getElementById` finds |
| Tabs.ClickLeavesOne | scripts.js:82-87 | after a click exactly one trigger is active; one panel is active if some panel has the id, none otherwise |
| Tabs.TabSet.constructor | scripts.js:80 | before any click the markup's own flags persist |
| Tabs.TabSet.Click | scripts.js:81-88 | both clearing loops and the two sets leave triggers and panels as `Selected` and `Shown` of the old state |
| DecisionToggle.Describe | scripts.js:98-108 | "operational" gives the Operational heading and paragraph, "managerial" the Managerial heading and paragraph, and every other value the Strategic heading and paragraph; each heading appears for exactly those values |
| DecisionToggle.HeadingDeterminesBody | scripts.js:99-108 | the heading shown determines the paragraph shown |
| RecBuilder.Rank | scripts.js:120-131 | every priority has its place in the fixed order |
| RecBuilder.Chosen | scripts.js:118-131 | filtering by the checked keys never lengthens the list |
| RecBuilder.Lines | scripts.js:119-131 | one line per chosen priority |
| RecBuilder.Render | scripts.js:132 | the ternary: the placeholder for no lines, else the joined lines in a list; `PlaceholderWhenNothingChecked` and `SecurityAndAnalytics` state what it yields for a selection |
| RecBuilder.Output | scripts.js:118-132 | the markup for a selection, the function every builder property is proved about: `OutputLinesInOrder`, `OutputDependsOnlyOnSelection`, `PlaceholderWhenNothingChecked`, `LinesDetermineSelection`, `SecurityAndAnalytics` |
| RecBuilder.UpdateRecs | scripts.js:117-133 | the four sequential pushes and the ternary render give exactly `Output(texts, checked)`, a function of the selection, so a re-run with the same selection writes the same markup |
| RecBuilder.ChosenFromOrder | scripts.js:120-131 | over the fixed order, the chosen priorities are those four tests taken in turn |
| RecBuilder.ChosenMembers | scripts.js:118-131 | a priority is chosen exactly when it is in the list and its key is checked |
| RecBuilder.ChosenAscending | scripts.js:119-131 | choosing keeps the fixed order, so no priority repeats (the lines are distinct too when the texts are, by `LineInjective` and `SiteTextsDistinct`) |
| RecBuilder.OutputLinesInOrder | scripts.js:119-131 | the lines follow security, integration, training, analytics, with a line exactly for each known checked key |
| RecBuilder.ChosenDependsOnlyOnSelection | scripts.js:118 | the chosen list depends only on which known keys are checked |
| RecBuilder.OutputDependsOnlyOnSelection | scripts.js:118-132 | the order of checking, repeated keys and unknown keys do not change the output |
| RecBuilder.PlaceholderWhenNothingChecked | scripts.js:132 | the placeholder is shown exactly when no known key is checked |
| RecBuilder.LineInjective | scripts.js:121-130 | with distinct advisory texts, different priorities give different lines |
| RecBuilder.SiteTextsDistinct | scripts.js:121-130 | the page's four advisory texts differ from each other |
| RecBuilder.LinesDetermineSelection | scripts.js:119-132 | with distinct texts, the lines shown determine which known keys were checked |
| RecBuilder.SecurityAndAnalytics | scripts.js:120-132 | checking security and analytics, in either order, renders exactly their two lines, security first |
| FlipCards.Toggle | scripts.js:146-147 | a flip turns a flipped card into an unflipped one and back, and always yields "" or `rotateY(180deg)` |
| FlipCards.ToggleTwice | scripts.js:146-147 | two flips from "" or `rotateY(180deg)` restore it |
| FlipCards.ToggleForeign | scripts.js:146-147 | any other non-empty transform flips to "" and then to the rotated value, not back to itself |
| FlipCards.FlipCard.KeyDown | scripts.js:142-148 | Enter or Space flips the card; every other key leaves the transform unchanged |

## Left out

- Layout and CSS (scripts.js:16-23): bounding rectangles, pixel offsets, and the `translateX`/transition strings are browser floating-point layout. Only the `active` classes are modelled.
- Timers (scripts.js:33, 44, 70): `requestAnimationFrame` and the 100 ms click delay are modelled as immediate effects. The 16 ms `setInterval` is modelled as a sequential loop, one iteration per tick. Real time, and interleaving between several counters or between a pending click delay and later events, are not modelled.
- Listener registration and DOM querying: the model starts from the collections of links, triggers, panels and cards. The `mouseleave` listener, registered once per link at scripts.js:40, is modelled once, because every copy has the same effect.
- A missing navigation bar or output element (scripts.js:10, 95, 116): the script then skips that component. The model assumes the component is present.
- NavBlob.Nav.constructor: requires at least one link. With none, the script's `moveBlobTo(undefined)` would throw.
- Elements the script queries without a check are assumed present and the throwing paths are not modelled:
  - Without a `.nav-track` (scripts.js:11), every `moveBlobTo` throws at line 20, before lines 25-26 change any class. No link ever becomes active, yet a click still reassigns `startLink` (line 43). `NavBlob.Nav.Valid` (exactly one link active) holds only with the track present.
  - A `.flip-card` without `.flip-inner` throws at line 146 on Enter or Space.
  - A `#decision-output` without an `h4` throws at line 100, 103 or 106, before anything is written.
  - A `#decision-output` with an `h4` but without a `p` throws at line 101, 104 or 107, after the heading has been written.
- Link navigation: a click on a link also follows its href. Page loads are not modelled.
- A link without an `href` is modelled with href "", which never equals the file name (that is never empty), just as `null` never does.
- `coverDate` (scripts.js:153-158) depends on the system clock and on `toLocaleDateString('en-GB')`, so it is not part of this model.
- JsBuiltins.ToNumber: models `Number()` for the empty string, an optional sign followed by decimal digits, and NaN for everything else. Surrounding whitespace, decimals, exponents, hex and `Infinity` are not modelled. Count targets are integers; the script would also accept fractional targets.
- JsBuiltins.ToNumber: integers are exact in the model, while the script's numbers are IEEE doubles. So the model leaves out that `Number("9007199254740993")` is 9007199254740992, that `String(n)` switches to exponent form ("1e+21") from 1e21, and that `n += step` (scripts.js:71) rounds once values pass 2^53. `NumberOfString` and `TargetOfDecimal` hold for the script only for integers of magnitude at most 2^53.
- JsBuiltins.StrLess: compares Unicode scalar values. JavaScript compares UTF-16 code units, which differs only for characters outside the Basic Multilingual Plane.
- Tabs.PanelById: searches the panels only. `getElementById` searches the whole document, and it looks up the literal id "undefined" for a trigger without `data-tab`. A trigger's `tab` stands for whatever string is looked up.
- DecisionToggle.Describe: takes the checked radio's value. The case of no radio checked is not modelled; a change event always comes from a checked one.
- FlipCards.FlipCard.KeyDown: `preventDefault()` is not modelled.
- RecBuilder.UpdateRecs: takes the texts as a parameter and takes the checked boxes' `data-key` values as a sequence. It writes the markup as a string; HTML parsing by `innerHTML` is not modelled.
- CountUp.TickCount: its own contract states only `k >= 1`. Its meaning for positive targets is stated by `TickCountIsCeiling`, `LastTick` and `EndsAtTarget`.
- RecBuilder.Chosen: its own contract states only the length bound. Membership and order are stated by `ChosenMembers` and `ChosenAscending`.
