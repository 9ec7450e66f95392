# Espresso Haven landing page — behavioural model in Dafny

The site is one React page (`App.tsx`) of static sections. Only a few small
rules in it have behaviour, and this project models those rules and proves
properties of them:

- **CountUp** (`countup.dfy`, with `decimal.dfy` and `jsnumber.dfy`). A label
  such as `"500+"` is split into a numeric target and a suffix. The target is
  all of the label's digits read as a number, and the suffix is all of its
  other characters. Once the span has been seen, a 16 ms interval timer adds
  `target / (duration / 16)` to an accumulator on every firing. While the
  accumulator is below the target the span shows its floor. When it reaches
  the target, the span shows exactly the target and the timer is cleared.
  The state is a `Counter` value. Observer entries and timer firings are
  `Event`s. Proved: the count never overshoots, it never decreases, the timer
  stops within `ceil(duration / 16)` firings in exact arithmetic, nothing
  changes after it stops, and a label made of a numeral without a leading
  zero followed by a digit-free suffix ends up shown exactly as written.
- **Visibility** (`visibility.dfy`). Both CountUp and Reveal have an
  observer callback that only ever sets its flag to true. Proved: the flag
  is a one-shot latch.
- **Reveal** (`reveal.dfy`). Maps (visible, direction) to an opacity and a
  transform.
- **Navbar** (`navbar.dfy`). `isScrolled` is recomputed from `scrollY > 50`
  on each scroll event. The menu button negates `isMobileMenuOpen`, and a
  click on a mobile link clears it.
- **Menu** (`menu.dfy`). The tab state starts at `coffee`. The cards shown
  are exactly the items of the active tab, with key `tab-i` and delay
  `i * 100` ms.
- **Testimonials** (`testimonials.dfy`). The j-th of five stars is filled
  when `j < rating`.

JavaScript numbers are modelled as `Num = Real(v) | NaN` with exact real
arithmetic. `NaN` is kept because a label with no digit gives
`parseInt("") = NaN`.

Two behaviours of the counter's code are easy to miss, and the model keeps both:

- The counter does not read a leading integer. It removes every non-digit
  and reads what remains, so `"1a2"` gives target 12 and suffix `"a"`.
- A label with no digit has no fallback. The target is NaN, every `>=`
  comparison with it is false, and the timer never stops while the span
  shows `NaN` (`CountUp.NoDigitsNeverStops`).

## Model

| member | source | states |
|---|---|---|
| `Decimal.KeepDigits` | App.tsx:26 | `/\D/g` removal leaves only digits and never lengthens the label. |
| `Decimal.DropDigits` | App.tsx:27 | `/[0-9]/g` removal leaves no digit and never lengthens the label. |
| `Decimal.Value` | App.tsx:26 | `parseInt` of a string of digits is 0 exactly when every digit is `0`. |
| `Decimal.NatToString` | App.tsx:56 | A whole number ≥ 0 is rendered as a numeral without a superfluous leading zero, starting with `0` only for 0. |
| `Decimal.FiltersDistribute` | App.tsx:26-27 | Both replacements distribute over concatenation, so each keeps its characters in their original order. |
| `Decimal.FiltersPartition` | App.tsx:26-27 | Between them, the digit part and the suffix hold every character of the label exactly once. The digit part is empty exactly when the label has no digit. |
| `Decimal.FiltersOnDigits` | App.tsx:26-27 | A string of digits passes the digit filter unchanged and leaves an empty suffix. |
| `Decimal.FiltersOnNonDigits` | App.tsx:26-27 | A string without digits becomes the suffix unchanged and leaves no digits. |
| `Decimal.ValueOfNatToString` | App.tsx:26 | `parseInt` of the text a whole number is rendered as gives the number back. |
| `Decimal.NatToStringOfValue` | App.tsx:26 | Rendering the value `parseInt` reads from a canonical numeral (no leading zero) gives the numeral back. |
| `Decimal.NatToStringInjective` | App.tsx:328 | Different positions are rendered as different texts. |
| `CountUp.Target` | App.tsx:26 | The target is NaN exactly when the label has no digit. Otherwise it is a whole number ≥ 0. |
| `CountUp.Suffix` | App.tsx:27 | The suffix holds no digit, and with the digit part it holds every character of the label once. |
| `CountUp.Increment` | App.tsx:43 | The increment is NaN exactly when the target is. Otherwise it is ≥ 0 for a target ≥ 0, and duration/16 increments add up to exactly the target. |
| `CountUp.Render` | App.tsx:56 | NaN is rendered `NaN`. A number ≥ 0 is rendered as a canonical numeral that reads back as its floor, and a negative number starts with `-`. |
| `CountUp.Text` | App.tsx:56 | The span ends with the suffix, after a non-empty number part. For a whole count ≥ 0 the number part is a canonical numeral that reads back as the count. |
| `CountUp.Observe` | App.tsx:31-32 | The visibility flag becomes the latch of the old flag and the entry, and the count is untouched. Once the counter is visible, callbacks change nothing. |
| `CountUp.Tick` | App.tsx:44-52 | Visibility is kept, and without a live timer nothing changes. A firing adds the increment to the accumulator and keeps the timer live exactly when the sum is not yet ≥ the target. A live timer shows the floor of the accumulator, and a cleared one shows exactly the target. |
| `CountUp.TickBound` | App.tsx:43 | The bound is the least number of firings ≥ duration/16, and it is at least 1. |
| `CountUp.StepKeepsInv` | App.tsx:40-52 | Every event keeps the reachable-state invariant, never lowers the count and never hides the counter again. |
| `CountUp.RunKeepsInv` | App.tsx:23-54 | Every state reached from mount by any events satisfies the invariant. |
| `CountUp.NoOvershoot` | App.tsx:45-51 | The shown count is whole and at most the target. It is exactly the target, or the floor of an accumulator still below the target, or 0 before the counter is seen. |
| `CountUp.CountNeverDecreases` | App.tsx:42-51 | Along any events, a later count is never below an earlier one. |
| `CountUp.VisibleIffIntersected` | App.tsx:25-38 | The counter is visible exactly when some observer entry intersected. |
| `CountUp.HiddenCountIsZero` | App.tsx:23-41 | For every label, the timer runs only once the counter is visible, and until then the count is 0. |
| `CountUp.HiddenShowsZero` | App.tsx:23-41 | For every label, even one without digits, the span reads `0` followed by the suffix until some entry intersects. |
| `CountUp.StoppedIsFinal` | App.tsx:46-48 | Once the timer is cleared, no event changes the state again. |
| `CountUp.TicksProgress` | App.tsx:42-51 | From the first firing on, the timer is live exactly while k·increment is below the target. While live, the accumulator is k·increment and the span shows its floor. Once cleared, the span shows the target. |
| `CountUp.BoundReachesTarget` | App.tsx:43 | ceil(duration/16) additions of the increment reach the target. |
| `CountUp.FinishesWithinBound` | App.tsx:43-48 | In exact arithmetic, the timer is cleared within ceil(duration/16) firings and exactly the target is shown. |
| `CountUp.NoDigitsNeverStops` | App.tsx:43-50 | With no digit in the label, the timer is never cleared, and from the first firing the span reads `NaN` followed by the label. |
| `CountUp.FinalText` | App.tsx:26-56 | When finished, the span reads the label's digits as a number, followed by the label's non-digits. |
| `CountUp.LabelRoundTrip` | App.tsx:22-56 | For a label made of a canonical numeral and then a digit-free suffix, the final text equals the label. |
| `CountUp.StatsEndAtLabel` | App.tsx:222-226 | In exact arithmetic with the default 2000 ms, each of `12+`, `500+` and `45+` ends at its own label after 125 firings. |
| `CountUp.TicksInv` | App.tsx:42-51 | Every state of the animation satisfies the reachable-state invariant. |
| `CountUp.TicksMonotone` | App.tsx:45-51 | A later firing never shows a smaller count than an earlier one. |
| `CountUp.Animate` | App.tsx:40-54 | Simulating the timer gives counts that are non-decreasing and bounded by the target. With enough firings it stops within ceil(duration/16) at the target. With no digit it keeps running and shows only NaN. |
| `Visibility.Latch` | App.tsx:31-32 | The callback never clears the flag. It sets the flag on an intersecting entry and on no other entry. |
| `Visibility.AfterEntriesIff` | App.tsx:64-67 | After any entries, the flag is set exactly when it started set or some entry intersected. |
| `Visibility.NeverReverts` | App.tsx:64-67 | Once set, the flag stays set whatever entries follow. |
| `Reveal.GetTransform` | App.tsx:74-82 | The transform displaces nothing exactly when the block is visible. A hidden block is moved sideways exactly for `left` and `right`. |
| `Reveal.StyleOf` | App.tsx:87-89 | The style is at rest exactly when the block is visible, and the opacity is 0 exactly when it is hidden. |
| `Reveal.DirectionOnlyShiftsHidden` | App.tsx:74-89 | Every visible block has the same style whatever its direction, and every hidden block has the same opacity. Only the hidden displacement depends on the direction. |
| `Reveal.HiddenStyle` | App.tsx:76-81 | A hidden block is transparent and displaced 40 px along one axis. The displacement is to the left for `left`, to the right for `right`, and down for `up` and any other string. |
| `Reveal.RestsOnceSeen` | App.tsx:59-89 | The block is at rest exactly when an entry intersected, and once at rest it stays at rest. |
| `JsNumber.Div` | App.tsx:43 | Division by a non-zero divisor gives NaN exactly for NaN, and otherwise a quotient that multiplied by the divisor gives the dividend back. |
| `JsNumber.Add` | App.tsx:45 | `start += increment` gives NaN exactly when one operand is NaN. |
| `JsNumber.AtLeast` | App.tsx:46 | `start >= targetNumber` is false whenever either side is NaN, and otherwise it is the usual order on numbers. |
| `JsNumber.Floor` | App.tsx:50 | `Math.floor` gives NaN for NaN, and otherwise the greatest whole number not above its argument. |
| `Navbar.OnScroll` | App.tsx:105 | The scrolled style holds exactly when `scrollY > 50`, and the menu flag is untouched. |
| `Navbar.OnMenuButton` | App.tsx:145 | The menu flag is negated, and the scroll flag is untouched. |
| `Navbar.OnMobileLink` | App.tsx:163 | The menu is closed whatever its state, and the scroll flag is untouched. |
| `Navbar.MenuButtonTwice` | App.tsx:145 | Two presses of the menu button are the identity. |
| `Navbar.LinkAfterOpenCloses` | App.tsx:145-163 | After any history, pressing the button and then following a mobile link leaves the menu closed and the scroll flag unchanged. |
| `Navbar.MenuOpenParity` | App.tsx:102-163 | From mount, the menu is open exactly when an odd number of presses followed the last link click. |
| `Navbar.ScrolledIffLastScrollPast` | App.tsx:101-108 | From mount, the bar is scrolled exactly when the latest scroll event's offset exceeded 50. |
| `Navbar.ScrolledAfterIsLatest` | App.tsx:105 | After a run of scroll events, the style depends only on the latest offset. |
| `Navbar.ScrollingDownFlipsOnce` | App.tsx:105 | Scrolling down steadily from ≤ 50 to > 50 turns the style on exactly once and never back. |
| `Menu.TabsAreCategories` | App.tsx:312-317 | The tab buttons list every category once, and a button is highlighted exactly when it is the active tab. |
| `Menu.SelectTab` | App.tsx:315 | Pressing a tab makes it active, whatever was active before, and card k then shows item k of that tab. |
| `Menu.CardKey` | App.tsx:328 | A key is the tab name, a `-` and a canonical numeral that reads back as the card's position. |
| `Menu.KeysWithinTabDistinct` | App.tsx:328 | Different positions in one tab never share a key. |
| `Menu.Cards` | App.tsx:327-328 | There is one card per item of the active tab. Keys are pairwise distinct, and delays strictly increase with position. |
| `Menu.CardsShowActiveItems` | App.tsx:278-328 | The cards are exactly the active tab's items in order, and card i is delayed i·100 ms. Initially the tab is `coffee` with six cards. |
| `Menu.TabsDisjoint` | App.tsx:280-298 | No item belongs to two tabs. |
| `Menu.SwitchReplacesItems` | App.tsx:315-328 | Pressing another tab shows only items of that tab and none of the previous tab's. |
| `Menu.SwitchRenewsKeys` | App.tsx:315-328 | After pressing another tab no card reuses a previous card's key, so every card is mounted and revealed afresh. |
| `Menu.CardKeysDistinct` | App.tsx:328 | Two card keys are equal exactly when tab and position are equal. |
| `Testimonials.Stars` | App.tsx:370-371 | Every card has five stars, and a filled star never follows an empty one. A rating of 0..5 fills the first that many stars. |
| `Testimonials.StarsLayout` | App.tsx:370-371 | The stars are the filled ones (rating clamped to 0..5) followed by the empty ones. A rating of 0..5 fills exactly that many stars. |
| `Testimonials.ReviewStars` | App.tsx:346-350 | Every review shows as many filled stars as its rating. The rating-4 review shows four filled stars and one empty one. |

## Left out

- The markup, Tailwind classes, images, icons and static copy of every section, and the `Hero`, `Footer` and `App` components: they are layout and hold no state.
- `IntersectionObserver`, `setInterval` and `window.addEventListener` themselves: their callbacks arrive as events (`CountUp.Event`, `Navbar.NavEvent`, and the entry sequences of `Visibility.AfterEntries`). The 10 % threshold is the browser's decision and reaches the model only as `isIntersecting`.
- Batched observer entries: each callback destructures only the first entry of its array (`([entry]) =>`), and the model gives every callback exactly one entry. If the browser ever batched a non-intersecting entry before an intersecting one for the same element, the source would not set the flag, but `CountUp.VisibleIffIntersected` and `Reveal.RestsOnceSeen` would count the later entry. A callback with an empty array is not modelled either.
- Teardown (`observer.disconnect`, `clearInterval` on unmount, `removeEventListener`): the model has no unmount, so it has no state after teardown.
- CSS transition timing and easing, including the `Reveal` `delay` prop, the review cards' `i * 200` ms and the mobile links' `index * 50` ms delays: the browser applies them. The menu's `i * 100` ms delays are modelled as data.
- Rounding of JavaScript doubles in `target / (duration / 16)` and in the accumulator: the arithmetic is exact. `parseInt` precision beyond 2^53 and the exponent form of numbers from 10^21 up are not modelled either.
- `CountUp.Increment`: requires a positive duration, so a duration ≤ 0 (an infinite or NaN increment) is not modelled. The only caller uses the default 2000 ms.
- `CountUp.StatsEndAtLabel`: holds only in exact arithmetic. With doubles, 125 additions of 45/125 = 0.36 give 44.99999999999995, below 45. So the `45+` counter still shows 44 after 125 firings and first reads `45+` on firing 126, and the ceil(duration/16) bound does not hold for the page as written. `12+` and `500+` do end at 125.
- Prop changes: the counter's effect depends on `[isVisible, targetNumber, duration]`. If `end` or `duration` changed while the counter was visible, the effect would restart with `start = 0` and keep the old `count`, so the count could go down. `CountUp.Props` are fixed for the whole run, as they are on the page.
- `CountUp.Render`: renders a number by its floor. A count with a fraction cannot occur (`CountUp.NoOvershoot` proves every count whole).
- `Testimonials.Stars`: takes an integer rating, so fractional ratings are not modelled. All ratings in the page are whole.
- The active tab is a string in the source but is only ever set to a key of the menu table, so it is modelled as the `Menu.Category` datatype.
- The desktop links and the "BOOK A TABLE" buttons have no handlers. The mobile panel's classes derived from `isMobileMenuOpen` are presentational.
- React's render scheduling and development-mode double effects: each state update is applied as one atomic step.
- `types.ts` holds only the `MenuItem` and `Review` interfaces. They appear as the `Menu.MenuItem` and `Testimonials.Review` datatypes.
