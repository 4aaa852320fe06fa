# Portfolio site core, modelled in Dafny

A model of the decision logic inside a single-page React portfolio site
(NG Codes). The site is mostly markup; the modelled core is the part that
decides something:

- the contact form's validator (trim-based required fields, the email
  pattern `^[^\s@]+@[^\s@]+\.[^\s@]+$`, the error map) and its submission
  status machine `idle -> submitting -> submitted -> idle`;
- the portfolio's category list (`"All"` then the distinct project
  categories in first-occurrence order), its filter, the selected-project
  modal and the three-chip technology preview;
- the scroll-reveal pattern every section repeats: the class-set rewrite
  on an intersecting entry, the affine `base + i * step` transition-delay
  schedules, the ref-slot arrays filled by ref callbacks, and the effect's
  observe/unobserve calls;
- the about timeline's slot layout and alternating left/right layout;
- the skills selector, the displayed skills, bar widths and delays, and the
  fixed slot layout;
- the blog cards' slots and the "view all" wrapper's slot write;
- the header's scrolled flag, mobile menu and theme icon, and the page's
  theme toggle and scroll-to-top button.

Modules: `Collections` (Option, JavaScript `Set` insertion order as
`Distinct`, order-preserving `Filter`, subsequences), `Reveal` (shared by
all sections), then one module per component: `Contact`, `Portfolio`,
`About`, `Skills`, `Blog`, `Header`, and `Page` for `src/pages/Index.tsx`.

Conventions. Class lists are `set<string>`. A JavaScript array of element
refs is a `seq<Option<E>>`: a hole and a `null` are both `None`, because
`forEach` skips holes and the callbacks' `if (item)` skips nulls. Writing
at or past the end extends the array with holes. Writing at a negative
index sets a property that is not an element. An observer target is a
`Reveal.Target`: the `<section>`, the heading block, or a slot element. `window.scrollY` is a
`real`. Whitespace is the ECMAScript WhiteSpace and LineTerminator set,
which both `String.prototype.trim` and the regular-expression class `\s`
use. The two contact timers are events that can fire only when scheduled;
they are counted, not timed. Events on disabled controls are dropped.

## Model

| member | source | states |
|---|---|---|
| Collections.Distinct | src/components/PortfolioSection.tsx:84 | `new Set(xs)` yields each element of `xs` exactly once and nothing else |
| Collections.DistinctInFirstOccurrenceOrder | src/components/PortfolioSection.tsx:84 | the `Set` yields elements in the order of their first occurrence in `xs` |
| Collections.Filter | src/components/PortfolioSection.tsx:87 | `filter` keeps exactly the matching elements, each with its full multiplicity, as a subsequence of the input |
| Reveal.RevealStep | src/components/AboutSection.tsx:43-46 | an intersecting entry leaves the element revealed (`opacity-100`, `translate-y-0`, neither hidden token); a non-intersecting one changes nothing; every other class is untouched |
| Reveal.RevealIdempotent | src/components/AboutSection.tsx:43-46 | revealing twice equals revealing once |
| Reveal.RevealMonotone | src/components/AboutSection.tsx:42-47 | no entry un-reveals a revealed element |
| Reveal.RevealAllCharacterized | src/components/AboutSection.tsx:42-47 | over any entry history: revealed if some entry intersected, unchanged if none did, non-reveal classes never touched |
| Reveal.RevealedIffSomeEntryIntersected | src/components/AboutSection.tsx:42-47 | an element that starts hidden ends revealed exactly when some entry intersected |
| Reveal.StaggerIncreasing | src/components/PortfolioSection.tsx:168 | in a `base + i * step` schedule, later items start later, by exactly `(j - i) * step` |
| Reveal.StaggerIndexInverts | src/components/AboutSection.tsx:158 | a delay of the schedule determines the item index |
| Reveal.WriteSlot | src/components/BlogSection.tsx:112 | `arr[i] = el`: sets slot `i`, extends with holes past the end, ignores negative indices as elements, keeps every other slot |
| Reveal.WriteRunAppends | src/components/PortfolioSection.tsx:167 | writes to consecutive slots from the current length append the elements in order |
| Reveal.WriteEachInOrder | src/components/AboutSection.tsx:157 | callbacks whose slot is the next free one fill the array with exactly those elements, with no holes |
| Reveal.WriteLast | src/components/BlogSection.tsx:174 | `arr[arr.length - 1] = el` replaces the last slot, and leaves an empty array empty |
| Reveal.WriteNext | src/components/BlogSection.tsx:174 | writing at `arr.length` appends |
| Reveal.Present | src/components/AboutSection.tsx:56-58 | the elements held are exactly the non-null slots' values |
| Reveal.ObserveEach | src/components/AboutSection.tsx:56-58 | `forEach(item => if (item) observe(item))` adds exactly the held elements |
| Reveal.UnobserveEach | src/components/AboutSection.tsx:64-66 | the cleanup loop removes exactly the held elements |
| Reveal.CleanupUndoesSetup | src/components/AboutSection.tsx:52-67 | setup watches exactly the non-null refs; cleanup over the same refs leaves nothing watched |
| Reveal.EffectWatches | src/components/AboutSection.tsx:52-67 | over observer targets: the effect watches the element `sectionRef` holds and exactly the held slot elements; cleanup over the same refs unwatches them all |
| Reveal.CleanupAfterHolderChanged | src/components/AboutSection.tsx:52-82 | if the heading block's callback takes `sectionRef` over after setup, cleanup unobserves the new holder and the element watched at setup stays watched |
| Contact.TrimStart | src/components/ContactSection.tsx:29 | the result is the suffix after the leading whitespace, starting with a non-space |
| Contact.TrimEnd | src/components/ContactSection.tsx:29 | the result is the prefix before the trailing whitespace, ending with a non-space |
| Contact.Trim | src/components/ContactSection.tsx:29 | `trim()` is empty exactly for all-whitespace input; otherwise it starts and ends with non-whitespace |
| Contact.EmailPatternTestMatchesRegex | src/components/ContactSection.tsx:31 | the decision procedure accepts exactly the strings the regular expression matches |
| Contact.AcceptedEmailShape | src/components/ContactSection.tsx:31 | an accepted address has no whitespace and exactly one `@`, with a non-empty local part |
| Contact.AcceptedEmailNotBlank | src/components/ContactSection.tsx:30-31 | an accepted address is never blank |
| Contact.BlankEmailRejected | src/components/ContactSection.tsx:30-31 | a blank address fails the pattern too, so the two email errors never compete |
| Contact.LeadingSpaceIsFormatError | src/components/ContactSection.tsx:31 | given an untrimmed value with a leading space, the handler reports a format error, because the pattern is tested on the untrimmed value |
| Contact.Validate | src/components/ContactSection.tsx:26-33 | name and message errors exactly when blank; the email error is "required" when blank, else "invalid" when the pattern fails; keys never include the subject |
| Contact.IsValid | src/components/ContactSection.tsx:34-35 | valid exactly when the error map is empty, that is name and message not blank and the email accepted |
| Contact.SetField | src/components/ContactSection.tsx:216-278 | through the field accessor: the edited field reads the new value and every other field reads as before |
| Contact.SetFieldLaws | src/components/ContactSection.tsx:216-278 | writing a field's current value changes nothing; of two writes to one field the later wins |
| Contact.HandleSubmit | src/components/ContactSection.tsx:38-43 | errors are recorded; an invalid form keeps its status, a valid one goes to submitting and schedules the send |
| Contact.Step | src/components/ContactSection.tsx:38-61 | disabled controls drop edits and submits; an enabled edit changes exactly the edited field; the send callback clears all four fields and sets submitted; the reset callback sets idle |
| Contact.StepPreservesInvariant | src/components/ContactSection.tsx:10-61 | status is never error, and while submitting the form is valid with a send pending |
| Contact.RunPreservesInvariant | src/components/ContactSection.tsx:10-61 | the same over any event sequence |
| Contact.NeverError | src/components/ContactSection.tsx:10-61 | from the initial state no event sequence reaches `"error"` |
| Contact.InvalidSubmitChangesNothingButErrors | src/components/ContactSection.tsx:41 | an invalid submit returns early: status and all fields unchanged, errors non-empty |
| Contact.ValidSubmit | src/components/ContactSection.tsx:41-46 | a valid submit clears the errors, sets submitting and schedules one send |
| Contact.TimersCompleteCycle | src/components/ContactSection.tsx:46-61 | the send then the reset callback take submitting to submitted with empty fields, then to the initial state |
| Contact.SuccessfulCycle | src/components/ContactSection.tsx:43-60 | a valid form goes idle, submitting (fields kept), submitted (all fields cleared), idle again |
| Contact.RenderedSlotsOrderIndependent | src/components/ContactSection.tsx:118-197 | the two cards write the constant slots 0 and 1, so either callback order leaves both held with no hole |
| Contact.EffectCleanupUndoesSetup | src/components/ContactSection.tsx:65-110 | the effect watches the element `sectionRef` holds and both cards; the heading block is watched exactly when it wrote the ref last; cleanup unwatches them all |
| Portfolio.Categories | src/components/PortfolioSection.tsx:84 | "All" first, then each project category exactly once, in first-occurrence order |
| Portfolio.FilteredProjects | src/components/PortfolioSection.tsx:85-87 | "All" gives the list unchanged; another filter gives exactly that category's projects, in order, as a subsequence |
| Portfolio.EachProjectInExactlyOneView | src/components/PortfolioSection.tsx:84-87 | each project appears in the view of exactly one category button |
| Portfolio.SiteCategories | src/components/PortfolioSection.tsx:9-84 | the site's buttons are All, Web Development, Software Development, Network Engineering |
| Portfolio.Step | src/components/PortfolioSection.tsx:154-249 | with the modal closed, a button sets the filter to its category and a card opens the modal on its project; while it is open the page takes no clicks; closing or the X button empties the selection |
| Portfolio.StepPreservesInvariant | src/components/PortfolioSection.tsx:79-154 | the filter stays a category and the selection stays a project |
| Portfolio.RunPreservesInvariant | src/components/PortfolioSection.tsx:79-154 | the same over any event sequence |
| Portfolio.FilterAlwaysACategory | src/components/PortfolioSection.tsx:79-154 | from the initial "All", the filter is always one of the category buttons |
| Portfolio.Preview | src/components/PortfolioSection.tsx:206-215 | the first `min(3, n)` technologies, plus a badge iff `n > 3`; chips plus badge count equal `n` |
| Portfolio.SitePreviews | src/components/PortfolioSection.tsx:206-215 | every project on the site shows three chips and "+2" |
| Portfolio.CardDelaysIncrease | src/components/PortfolioSection.tsx:168 | card delays are `300 + 100 i`, strictly increasing |
| Portfolio.SlotsBeforeViewMoreLayout | src/components/PortfolioSection.tsx:144-167 | the filter bar holds slot 0 and card `i` slot `i + 1` |
| Portfolio.ViewMoreDisplacesLastCard | src/components/PortfolioSection.tsx:225 | as written, the wrapper takes the last card's slot, or the filter bar's when there is no card |
| Portfolio.ViewMoreAppendedKeepsAllCards | src/components/PortfolioSection.tsx:225 | appending the wrapper keeps the filter bar and every card |
| Portfolio.AsWrittenSlotsHold | src/components/PortfolioSection.tsx:144-225 | as written the slots hold the wrapper, the filter bar when there is a card, and every card but the last |
| Portfolio.EffectCleanupUndoesSetup | src/components/PortfolioSection.tsx:100-135 | as written: the effect watches the element `sectionRef` holds and those slot elements; the heading block is watched exactly when it wrote the ref last; cleanup unwatches them all |
| About.Slot | src/components/AboutSection.tsx:92-157 | only timeline items use slots from 3 on |
| About.ElementAt | src/components/AboutSection.tsx:92-157 | slots below 3 belong to profile, bio and heading |
| About.SlotRoundTrip | src/components/AboutSection.tsx:92-157 | slot layout and its inverse round-trip both ways |
| About.SlotInjective | src/components/AboutSection.tsx:92-157 | no two elements share a slot |
| About.RenderedSlotsLayout | src/components/AboutSection.tsx:92-157 | after the callbacks, slot `k` holds its element, with no hole |
| About.SiteTimelineSlots | src/components/AboutSection.tsx:10-157 | with the site's five milestones the slots hold exactly profile, bio, heading and the five items, the last in slot 7 |
| About.EffectCleanupUndoesSetup | src/components/AboutSection.tsx:52-82 | the effect watches the element `sectionRef` holds and every rendered element; the heading block (hidden at first) is watched exactly when it wrote the ref last; cleanup unwatches them all |
| About.TimelineDelaysIncrease | src/components/AboutSection.tsx:158 | item delays are `500 + 200 i`, 200 ms apart, distinct per item |
| About.TimelineDelayIdentifiesItem | src/components/AboutSection.tsx:158 | an item's delay determines its index |
| About.RowClasses | src/components/AboutSection.tsx:153-156 | even rows carry `md:flex-row-reverse`, odd rows do not; every row starts hidden |
| About.ContentClasses | src/components/AboutSection.tsx:166-169 | even items carry `md:mr-6`, odd items `md:ml-6`, never both |
| About.MarginFacesCentreLine | src/components/AboutSection.tsx:153-168 | the margin faces the centre line, and consecutive items alternate sides, starting left |
| Skills.SiteSkillData | src/components/SkillsSection.tsx:6-37 | every category has five skills and every level lies in 0..100 |
| Skills.RunStaysInRange | src/components/SkillsSection.tsx:40-113 | the active category stays in range and is the last in-range click, read from the end of the clicks, or the start when none |
| Skills.ClickShowsCategory | src/components/SkillsSection.tsx:113-126 | clicking button `i` shows category `i`'s skills |
| Skills.DisplayedAlwaysACategory | src/components/SkillsSection.tsx:40-126 | from the initial state the index is always in range and the list is a category's list |
| Skills.ExactlyOneActiveButton | src/components/SkillsSection.tsx:109-111 | exactly the button at the active index has the active style |
| Skills.BarFollowsRow | src/components/SkillsSection.tsx:131-143 | each bar starts 200 ms after its row; rows and bars are 100 ms apart |
| Skills.Bar | src/components/SkillsSection.tsx:143 | a bar's width percentage is the skill's level |
| Skills.SiteBarsWithinTrack | src/components/SkillsSection.tsx:126-143 | every displayed bar on the site is between empty and full |
| Skills.SlotsDistinctIffAtMostFiveRows | src/components/SkillsSection.tsx:90-165 | slots are pairwise distinct exactly when there are at most five rows |
| Skills.SiteSlotsDistinct | src/components/SkillsSection.tsx:6-165 | whichever category is active, its five rows keep the slots distinct |
| Skills.FiveRowSlots | src/components/SkillsSection.tsx:90-165 | with five rows the slots hold all nine elements, with no hole |
| Skills.SiteSlotsLayout | src/components/SkillsSection.tsx:58-80 | only the `<section>` writes `sectionRef`: the effect watches it and all nine elements; cleanup unwatches them all |
| Blog.SitePostKeysDistinct | src/components/BlogSection.tsx:8-110 | the posts' React keys are distinct |
| Blog.PostDelaysIncrease | src/components/BlogSection.tsx:113 | card delays are `300 + 100 i`, strictly increasing, and determine the card |
| Blog.SlotsAfterPostsLayout | src/components/BlogSection.tsx:112 | card `i` holds slot `i`, with no hole |
| Blog.ViewMoreDisplacesLastPost | src/components/BlogSection.tsx:174 | as written, the wrapper takes the last card's slot; with no card it is never stored |
| Blog.AppendedSlotsKeepAllPosts | src/components/BlogSection.tsx:174 | corrected variant: appending the wrapper keeps every card and adds the wrapper |
| Blog.AsWrittenSlotsHold | src/components/BlogSection.tsx:112-174 | as written the slots hold the wrapper and every card but the last, and nothing when there is no card |
| Blog.EffectCleanupUndoesSetup | src/components/BlogSection.tsx:68-174 | as written: the effect watches the element `sectionRef` holds, the wrapper and every card but the last (nothing from the slots when there is no card); cleanup unwatches them all |
| Blog.AppendedEffectWatchesAllPosts | src/components/BlogSection.tsx:68-174 | corrected variant: with the wrapper appended, the effect watches every card and the wrapper |
| Header.Step | src/components/Header.tsx:26-139 | a scroll sets `scrolled` iff `scrollY > 50`; the menu button flips the menu; links and Hire Me close it |
| Header.ScrolledFollowsLastScroll | src/components/Header.tsx:25-32 | after any events, `scrolled` reflects the last scroll position seen, or the start state when none |
| Header.ThresholdIsStrict | src/components/Header.tsx:27 | exactly 50 is not scrolled |
| Header.MenuButtonTwiceRestores | src/components/Header.tsx:96 | two presses of the menu button restore the state |
| Header.NavigationClosesMenu | src/components/Header.tsx:131-139 | a mobile link or Hire Me closes the menu whatever its prior state and changes nothing else |
| Header.MenuPanelClasses | src/components/Header.tsx:118-122 | the panel is expanded iff the menu is open, collapsed otherwise |
| Header.NavHrefsAreLowerCasedNames | src/components/Header.tsx:16-23 | each item's href is `#` plus its lower-cased name |
| Page.ToggleTheme | src/pages/Index.tsx:22-24 | the result is always dark or light, and dark exactly when the current theme is not |
| Page.ToggleThemeTwiceRestores | src/pages/Index.tsx:23 | between dark and light, toggling twice restores the theme |
| Page.ToggleFromOtherTheme | src/pages/Index.tsx:23 | any other theme value goes to dark and never comes back |
| Page.ToggleSwitchesIcon | src/pages/Index.tsx:22-24 | every toggle switches the header's icon |
| Page.Step | src/pages/Index.tsx:29-33 | a scroll shows the button iff `scrollY > 500` and sets the header's flag iff `> 50`; other events leave both |
| Page.StepPreservesInvariant | src/pages/Index.tsx:29-33 | a shown button implies a scrolled header |
| Page.RunPreservesInvariant | src/pages/Index.tsx:29-33 | the same over any event sequence |
| Page.ClickableButtonMeansScrolledHeader | src/pages/Index.tsx:29-143 | whenever the button is clickable, the header is scrolled |
| Page.ScrollButtonClasses | src/pages/Index.tsx:141-144 | hidden, the button carries `pointer-events-none` and the hidden tokens; shown, it is revealed |
| Page.NavItemsTargetSections | src/components/Header.tsx:16-23 | the nav items link to the sections home, about, skills, portfolio, blog, contact, in page order |

## Findings

| source | as written | input that shows it | evidently intended | confidence | as-written member | corrected member |
|---|---|---|---|---|---|---|
| src/components/BlogSection.tsx:174 | the "view all" wrapper's ref writes `blogItemRefs.current[length - 1]` | three cards whose callbacks ran first fill slots 0-2; the wrapper then overwrites slot 2, so card 2 is never observed and never revealed | append the wrapper at `length` | medium: assumes the cards' callbacks run before the wrapper's; not executed | Blog.ViewMoreDisplacesLastPost | Blog.AppendedSlotsKeepAllPosts |
| src/components/PortfolioSection.tsx:225 | the "view more" wrapper's ref writes `projectRefs.current[length - 1]` | the filter bar and six cards fill slots 0-6; the wrapper overwrites slot 6, so the last card is never observed | append the wrapper at `length` | medium: assumes the cards' callbacks run before the wrapper's; not executed | Portfolio.ViewMoreDisplacesLastCard | Portfolio.ViewMoreAppendedKeepsAllCards |

## Left out

- The browser: IntersectionObserver construction and delivery, `classList` mutation, and window or document listeners. Only the class-set rewrite, the observed set and the handlers' decisions are modelled.
- The order in which React runs ref callbacks. Slots are written in render order. In About, Portfolio, Blog and Contact both the `<section>` (an object ref) and the heading block (a callback ref) write `sectionRef`; which one wrote last is a parameter of the effect lemmas, because it depends on React's commit order and on later renders re-running the inline callback.
- Re-running the effects when `filter` (Portfolio) or `activeCategory` (Skills) changes. React's null calls to unmounted refs are also left out. One setup and its cleanup are modelled.
- A fire-once reveal controller is not modelled because the code has none. Such a controller would unobserve on reveal, have cancellable timers and fall back when IntersectionObserver is missing. The sections only unobserve in effect cleanup.
- Contact.Step: the e-mail input's `type="email"` behaviour is not modelled. The browser strips leading and trailing ASCII whitespace from its value, and its pre-submit validation cancels a submit whose non-empty value fails the HTML e-mail grammar. So Edit and Submit allow more values than reach `handleSubmit`. Safety properties such as NeverError remain sound, because they hold for the larger set.
- Contact.Step: the two `setTimeout` callbacks (1500 ms and 3000 ms) are events that may fire in any order once scheduled, so the model allows more interleavings than wall-clock time would.
- Toasts, `window.open`, `window.scrollTo` and the custom cursor: side effects with no decision in them.
- The hero section (a floating-point parallax) and the footer (static markup and a clock read).
- Styling strings other than the named tokens, images and static text. Post, project and skill records keep only the fields a decision reads.
- Header.ToLower: lower-cases ASCII letters only, because the navigation names are ASCII. JavaScript's `toLowerCase` is Unicode-wide.
