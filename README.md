# Portfolio page behaviour, in Dafny

A model of the stateful rules inside `script.js`, the single script of a
one-page personal portfolio. Each part of the script with behaviour you can
state gets its own module:

- `NeuralNetwork` (`neural_network.dfy`): the background particle field.
  `createNodes` builds 70 nodes from random draws. `moveNode` moves a node by
  its velocity and negates a velocity component at a canvas edge.
  `connectNodes` links every pair of nodes closer than `MAX_DIST` = 150.
  `resizeCanvas` changes only the canvas size. `destroy` cancels the next
  frame. Nodes are objects (`Particle`) that `moveNode` updates in place, and
  the field (`Field`) holds a sequence of them.
- `HeroSlideshow` (`hero_slideshow.dfy`): the carousel. `current` is a
  modular counter. `updateSlides` gives each slide the class `slide` plus at
  most one position class, chosen by an ordered `else if` chain on its offset.
  A click selects a slide.
- `TypingEffect` (`typing_effect.dfy`): the typing animation. A state machine
  over `roleIndex`, `charIndex` and `isDeleting` that shows a prefix of the
  current role.
- `CounterAnimation` (`counter_animation.dfy`): the statistics counter, which
  counts to its target in steps of `max(1, ceil(target / 80))`.
- `ContactForm` (`contact_form.dfy`): the submit validation. It checks the
  required fields and the email pattern `/^[^\s@]+@[^\s@]+\.[^\s@]+$/`.
- `Navigation` (`navigation.dfy`): the `scrolled` flag, the active link
  chosen from the section under the viewport, and the mobile menu toggles.
- `ScrollAnimations` (`scroll_animations.dfy`): the stagger delay of the
  project cards.

The DOM is abstracted away. Slides are an array of class lists, link flags
are an array of booleans, and sections are records with offset, height and
id. Viewport sizes, scroll offsets and the `Math.random()` draws are inputs,
and so is whether the canvas, the slides, the typing element and the navbar
exist; the menu toggle and the link container are assumed present.

`moveNode` only negates a velocity component once the node is at or past
an edge, so `0 <= x <= width` does not hold after every step: a node can
end up outside the canvas by up to one velocity step. What is proved is the
band invariant `InBand`: the node is at most `|v|` outside the edge, and
when it is outside, its velocity already points back in. `resizeCanvas`
only sets `width` and `height`; it does not regenerate the node positions.
A node stranded outside a shrunken canvas (by more than its speed) then
flips back and forth in place forever, which the lemma `Stranded` states.

## Model

| member | source | states |
|---|---|---|
| `NeuralNetwork.Field.constructor` | script.js:526-546 | without a canvas nothing happens; with one the canvas takes the viewport size, exactly 70 fresh node objects are built from the draws, the first frame moves them and draws the links, and every node is in band; the nodes being fresh lets a caller run further frames, resizes and `destroy` |
| `NeuralNetwork.Field.ResizeCanvas` | script.js:548-551 | only `width` and `height` change; every node keeps its state; growing the canvas keeps every node in band |
| `NeuralNetwork.Field.CreateNodes` | script.js:553-564 | `nodes` becomes exactly `NUM_NODES` fresh, distinct node objects, node k built from draws 5k..5k+4 |
| `NeuralNetwork.Created` | script.js:553-564 | the created field has exactly `NUM_NODES` nodes |
| `NeuralNetwork.CreatedBounds` | script.js:553-564 | created nodes start in [0, width) x [0, height) (at 0 on an empty axis), velocity components in [-0.5, 0.5), radius in [2, 4), and in band |
| `NeuralNetwork.NewNodeInBounds` | script.js:556-562 | the bounds of one node built from five draws in [0, 1) |
| `NeuralNetwork.Particle.constructor` | script.js:556-562 | a node object holds the given position, velocity and radius |
| `NeuralNetwork.Field.MoveNode` | script.js:566-572 | the node's new state is `Moved` of its old state for the current canvas size |
| `NeuralNetwork.MoveNodeSpec` | script.js:566-572 | a node moves by exactly its pre-step velocity; velocity magnitudes and radius are kept; a component is negated when the new coordinate is <= 0 or >= the edge, and kept when strictly inside |
| `NeuralNetwork.BandPreserved` | script.js:566-572 | on a canvas of non-negative size, a step keeps a coordinate within one velocity step of [0, edge], with the velocity pointing back in whenever it is outside |
| `NeuralNetwork.BandGrows` | script.js:548-551 | enlarging the canvas keeps every coordinate in band |
| `NeuralNetwork.Stranded` | script.js:566-572 | on a canvas of any size, including zero, a node beyond the edge by at least its speed alternates between two positions at or beyond the edge with a flipping velocity, for any number of steps |
| `NeuralNetwork.MoveAll` | script.js:603-606 | one frame moves every node once, each by `Moved` of its own old state alone; on a canvas of non-negative size it keeps every node in band |
| `NeuralNetwork.Field.Animate` | script.js:600-610 | a frame moves every node by `Moved`, records exactly the links `Links` gives for the new positions, requests the next frame, and keeps all nodes in band |
| `NeuralNetwork.Dist2` | script.js:584-586 | the squared distance is non-negative |
| `NeuralNetwork.Dist2Symmetric` | script.js:584-586 | the squared distance, and so the link test, does not depend on which node comes first |
| `NeuralNetwork.ThresholdExact` | script.js:586-590 | for the true distance d, the test on squares is exactly `d < MAX_DIST` (strict), and a linked pair's alpha `1 - d / MAX_DIST` is in (0, 1] |
| `NeuralNetwork.Field.ConnectNodes` | script.js:581-598 | the nested loops produce exactly `Links` of the node states |
| `NeuralNetwork.RowShape` | script.js:583-596 | the inner loop's links all have first index i and strictly increasing second index in (i, j) |
| `NeuralNetwork.RowExact` | script.js:583-596 | the inner loop's links are close pairs with their squared distance, and every close pair (i, m) with m < j is among them |
| `NeuralNetwork.UptoGenuine` | script.js:582-597 | every link of the first i rows is a close pair i < j with its squared distance |
| `NeuralNetwork.UptoSorted` | script.js:582-597 | links of the first i rows have first index below i and come in strict loop order |
| `NeuralNetwork.UptoCovers` | script.js:582-597 | every close pair whose first index is below i is linked in the first i rows |
| `NeuralNetwork.LinksExact` | script.js:581-598 | a pair i < j is linked iff it is close; every link is a genuine close pair; links come in strict (i, j) order, so each unordered pair is linked at most once |
| `NeuralNetwork.LinkExamples` | script.js:581-598 | nodes at (0, 0) and (100, 0) are linked with squared distance 10000; nodes exactly 150 apart are not linked |
| `NeuralNetwork.AlphaExample` | script.js:586-588 | for the nodes at (0, 0) and (100, 0), any d >= 0 whose square is their squared distance is 100, so the line's alpha is 1/3 |
| `NeuralNetwork.Field.Destroy` | script.js:612-616 | afterwards no frame is requested; calling it again changes nothing |
| `HeroSlideshow.Slideshow.constructor` | script.js:624-636 | with no slides nothing is laid out; otherwise `current` is 0 and the slides get `Layout(0, n)` |
| `HeroSlideshow.Offset` | script.js:655 | the offset is below n, and stepping that many slides forward from `current` (wrapping once) reaches the slide |
| `HeroSlideshow.Layout` | script.js:652-662 | exactly the current slide is `active`; the slide one ahead (wrapping) is `right1` from 2 slides on, two ahead `right2` from 3, one behind `left1` from 4, two behind `left2` from 5; every other slide has no position class |
| `HeroSlideshow.Slideshow.UpdateSlides` | script.js:652-663 | every slide's class list is rewritten to its `Layout` entry |
| `HeroSlideshow.Next` | script.js:666 | the next `current` stays in [0, n); it is the following slide, or 0 after the last |
| `HeroSlideshow.Slideshow.Rotate` | script.js:665-668 | `current` advances by `Next` and the slides are laid out for it |
| `HeroSlideshow.Slideshow.Select` | script.js:643-647 | a click sets `current` to the clicked slide and lays the slides out for it |
| `HeroSlideshow.RotationsAdd` | script.js:665-668 | k <= n rotations advance `current` by k, wrapping once past the last slide |
| `HeroSlideshow.FullCycle` | script.js:665-668 | n rotations return `current` to its start, and no smaller positive number of rotations does |
| `HeroSlideshow.ChainOrder` | script.js:657-661 | the chain order decides ties: with 2 slides offset 1 is `right1`; with 3, offset 2 is `right2`; with 4, offset 3 is `left1`; offsets 3..n-3 get no position class; with 5 or more, n-1 is `left1` and n-2 is `left2` |
| `HeroSlideshow.PositionsDistinct` | script.js:655-661 | for any number of slides, no position class is given to two slides |
| `TypingEffect.Typer.constructor` | script.js:691-712 | starts at role 0, index 0, typing; with the element present the first `type` step runs at once |
| `TypingEffect.RolesNonEmpty` | script.js:693-698 | the four roles are all non-empty |
| `TypingEffect.Step` | script.js:714-741 | a step keeps the role index in range, the character index within the role, at least one character shown while deleting, and the role incomplete while typing |
| `TypingEffect.Typer.Type` | script.js:714-741 | the three fields advance by `Step` and the shown text is the first `charIndex` characters of the current role |
| `TypingEffect.Steps` | script.js:714-741 | any number of steps keeps the same state invariant |
| `TypingEffect.StepFlags` | script.js:717-735 | `isDeleting` turns on exactly when typing reaches the role's length and off exactly when deleting reaches 0; the role changes only then, to `(roleIndex + 1) mod 4`; each step moves `charIndex` by one |
| `TypingEffect.TypesToEnd` | script.js:729-737 | typing from index i for `len - i` steps shows the whole role and switches to deleting |
| `TypingEffect.DeletesToStart` | script.js:717-726 | deleting from index i for i steps empties the text and selects the next role, typing |
| `TypingEffect.RoleCycle` | script.js:714-741 | from the empty text of role r, `2 * len` steps type the role, delete it and reach the empty text of role r + 1 mod 4 |
| `CounterAnimation.CeilDiv` | script.js:376 | the result is the ceiling of a / b: `(q - 1) * b < a <= q * b` |
| `CounterAnimation.Increment` | script.js:376 | `inc >= 1` and `target <= 80 * inc`, tightly when the target exceeds 80; `inc` is exactly 1 for every target up to 80 |
| `CounterAnimation.UpdateCounter` | script.js:375-388 | the loop ends with `count == target` and shows exactly the counts of `Run` |
| `CounterAnimation.RunShape` | script.js:379-386 | the shown counts are finite, rise strictly, are each at most the target, each is the previous plus `inc` capped at the target, and the last is the target |
| `CounterAnimation.RunLength` | script.js:379-386 | starting below the target, exactly `ceil((target - count) / inc)` counts are shown |
| `CounterAnimation.CounterFrames` | script.js:375-388 | a run always ends at the target; one frame when the target is not positive, otherwise `ceil(target / inc)` frames and never more than 80; a target from 1 to 80 takes exactly `target` frames |
| `ContactForm.HandleSubmit` | script.js:463-476 | the form is sent iff name, email and message are present and non-empty and the email matches the pattern; it fails the required-field check iff one of the three is missing or empty |
| `ContactForm.EmailMatches` | script.js:469-470 | the pattern accepts exactly the strings with no whitespace, exactly one `@`, a non-empty part before it, and a `.` after it that is neither the first nor the last character of the domain |
| `ContactForm.SubmitSpaces` | script.js:463-473 | fields holding only spaces pass the required-field check, and `a.b@c.d` (a dot in the local part) is sent |
| `ContactForm.SubmitNoDot` | script.js:469-473 | `a@b`, with no dot after the `@`, is refused as an invalid email |
| `ContactForm.SubmitTwoAts` | script.js:469-473 | `a@b@c.d`, with two `@`, is refused as an invalid email |
| `ContactForm.SubmitMissing` | script.js:463-473 | a form without a message whose email `a@b` would be refused is reported as missing a field: the required-field check comes first |
| `Navigation.Nav.constructor` | script.js:265-288 | without a navbar the link flags stay as given; with one, the active link is computed once |
| `Navigation.LastMatch` | script.js:311-316 | the result is a section containing the position with no later section containing it, or none when no section contains it |
| `Navigation.ScanLastMatch` | script.js:308-322 | after the scan the flags are those of the last matching section; when no section matches, the flags are unchanged |
| `Navigation.Nav.UpdateActiveNavLink` | script.js:308-323 | the nested loops leave the link flags equal to `Scan` of the old flags at `scrollY + 150` |
| `Navigation.Nav.HandleScroll` | script.js:291-294 | `scrolled` is set iff `scrollY > 50`, then the flags are updated as by `UpdateActiveNavLink` |
| `Navigation.Nav.ToggleMobileMenu` | script.js:296-300 | the toggle's and the container's `active` classes both flip and `aria-expanded` equals the toggle's new state |
| `Navigation.Nav.CloseMobileMenu` | script.js:302-306 | both classes are removed and `aria-expanded` is false, whatever the state before |
| `Navigation.OverlapExample` | script.js:308-322 | of two overlapping sections that both contain the position, the later one's link wins |
| `ScrollAnimations.StaggerGrid` | script.js:117 | card (row, col) waits `100 * col + 50 * row` ms, so each column adds 100 ms and each row 50 ms |

## Left out

- `debounce` and `throttle`: their behaviour is timer semantics (`setTimeout`, `clearTimeout`). The resize handler is modelled as one direct call of `ResizeCanvas`, and the scroll handler as one call of `HandleScroll`.
- The frame and timer drivers: `requestAnimationFrame` and `cancelAnimationFrame`, `setInterval` in `start`/`stop`/`restartInterval`, and the `setTimeout` delays of the typing effect and the counter. Each callback of the particle field, the carousel and the typing effect is modelled as one method call, and `scheduled` only records whether a next frame was requested. The counter's chain of `update` frames is the loop of `UpdateCounter`, one iteration per frame. The 500 ms delay before the counter's `animate`, and its loop over the counters, are not modelled.
- Canvas drawing: `clearRect`, `drawNode`, `beginPath`, `arc`, `stroke` and the colour strings. Links are modelled as data.
- NeuralNetwork.Field.ConnectNodes: records each link's pair and squared distance, not the alpha in its stroke style. Dafny has no square root, so the alpha `1 - d / MAX_DIST` is stated in `ThresholdExact` for any d with `d >= 0` and `d * d` equal to the squared distance.
- CounterAnimation.UpdateCounter: records the numbers shown, not the text `count + "+"`. Integer-to-decimal formatting is not modelled.
- CounterAnimation: `animate` reads each target with `parseInt` from a `data-target` attribute. `NaN` targets are not modelled; a target is an `int`.
- Floating point: coordinates, velocities, scroll offsets and distances are exact reals, without IEEE rounding.
- The `IntersectionObserver` reveal logic (`AdvancedScrollAnimations`, `HeroAnimation`, `TimelineAnimations`, the counter's trigger) and the hover, focus and blur listeners only toggle classes. Only the stagger delay formula is modelled.
- `ParallaxEffect`: floating-point ratios turned into CSS transform strings.
- The menu toggle and the link container are assumed present in `Nav`. Without `.menu-toggle`, a link click throws in `closeMobileMenu` before `smoothScroll` runs. Without `.nav-links`, `toggleMobileMenu` throws after flipping the toggle's class and before setting `aria-expanded`. Neither exception path is modelled.
- `smoothScroll`: a call to `window.scrollTo`. Clicking a link is modelled only by `CloseMobileMenu`.
- `alert`, `FormData`, `form.reset`, the `PortfolioApp` module list and its `destroy`, `try`/`catch`, and the style sheet injection. The submit handler's outcome is the datatype `Outcome`.
- The initial class lists of the slides, the navbar's initial `scrolled` class and the initial `aria-expanded` attribute come from the HTML, which is not part of this model. The slides start as `Plain`, the navbar as not scrolled and the menu as closed.
