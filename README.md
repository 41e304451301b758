# Rock-Paper-Scissors swarm and character-frequency compression

This project models two small programs and proves properties of the models.

The first is the engine of a Rock-Paper-Scissors swarm simulation
(`RPSimulation`). Circular entities move around a rectangular arena. Each of
them is a Rock, a Paper or a Scissors. Every frame, each entity takes one
Euler step and is clamped back off the walls, reversing the velocity
component of each wall it hits. Then every pair `i < j` is examined in list
order. An overlapping pair of different types converts the loser to the
winner's type, and the converted entity gets a fresh random velocity. Every
overlapping pair also gets a velocity-only separation response. A pair
examined later in the same pass sees the types written by earlier pairs. A
counter shows how many entities there are of each type.

The second is `compressString` (`CharFrequency`). It counts the characters of
a string into an insertion-ordered map, writes `c(n) ` for each entry in that
order, and trims the result.

Modules:

- `Dominance`: the three types, `Option` standing in for Java's `null`, the
  reference relation `Beats`, and `winnerOf`.
- `Motion`: the value state of one entity (`Body`), the clamp-and-reflect
  step on one axis, and one frame of motion.
- `Contact`: the separation response of `bounceEntities`, written without the
  square root (see the module's doc comment).
- `Draws`: the quantities derived from random draws (radius, speed,
  velocity, spawn position). The draws themselves are parameters.
- `Scan`: the value specification of the collision pass. `ResolveAll` folds
  the one-pair step `Resolve` over the pairs in scan order, and `PassState`
  follows the two nested loops. Lemmas show that the two agree, that each pair
  is examined once, and that types change only by conversion to the winner.
  `Touched` collects the entities of the overlapping pairs, the only ones a
  pass can change. The per-type counts are also here.
- `Simulation`: `Entity` and `GamePanel` as classes whose fields the methods
  update in place. The list of entities is a `seq<Entity>` field, and each
  loop carries invariants linking the heap to `Scan` and `Motion`.
- `CharFrequency`: `compressString` as methods with loops, proved against
  value functions: `FirstOccurrences`/`Frequencies` for the map, `Format`
  for the builder, and `Trim` for `String.trim`.

## Model

| member | source | states |
|---|---|---|
| Dominance.WinnerOf | src/RPSimulation.java:206-218 | the result is absent exactly on a tie; a present result is one of the two arguments, and it is `a` exactly when `a` beats `b` and `b` exactly when `b` beats `a` |
| Dominance.WinnerOfSymmetric | src/RPSimulation.java:209-216 | the winner does not depend on argument order |
| Dominance.WinnerOfTotal | src/RPSimulation.java:207-216 | every pair of distinct types has a winner: of the two, exactly one beats the other, and that one wins |
| Dominance.BeatsIsCyclicTournament | src/RPSimulation.java:208-216 | the win relation is irreflexive and asymmetric, relates every distinct pair one way, and is cyclic (x beats y and y beats z gives z beats x) |
| Motion.ReflectAxis | src/RPSimulation.java:157-163 | on an axis at least twice the radius long, the centre ends within `[r, extent - r]`; on a shorter axis it ends at `extent - r` |
| Motion.ReflectAxisCases | src/RPSimulation.java:157-163 | on an axis that can hold the entity: a low-wall hit clamps to `r` and negates the velocity, a high-wall hit clamps to `extent - r` and negates it, otherwise the position is `p + v` and the velocity is kept |
| Motion.ReflectAxisOversized | src/RPSimulation.java:157-163 | on a too-short axis both clamps can fire in one frame, negating the velocity twice; the centre always ends at `extent - r` |
| Motion.ReflectAxisSpeed | src/RPSimulation.java:157-163 | the velocity after a frame is `v` or `-v` on each axis |
| Motion.Move | src/RPSimulation.java:156-164 | a frame keeps the radius and the type; an entity that fits on an axis ends inside the arena on that axis |
| Contact.Bounce | src/RPSimulation.java:227-248 | only velocities change; coincident centres reverse both velocities; a separating pair is left alone |
| Contact.BounceKeepsMomentum | src/RPSimulation.java:238-247 | away from coincident centres the response keeps the sum of the two velocities |
| Contact.BounceStopsApproach | src/RPSimulation.java:240-247 | away from coincident centres an approaching pair leaves separating at 0.8 times its approach rate, so no pair is left approaching |
| Draws.SpawnRadius | src/RPSimulation.java:128 | the spawn radius lies in [14, 22) |
| Draws.Speed | src/RPSimulation.java:131 | the speed lies in [0.6, 2.2) |
| Draws.SpawnCoordinate | src/RPSimulation.java:129-130 | a random spawn coordinate keeps the whole disc inside an axis that can hold it |
| Draws.Velocity | src/RPSimulation.java:132-134 | the velocity's squared magnitude is the squared speed, in [0.36, 4.84) |
| Scan.ScanOrderVisitsEachPairOnce | src/RPSimulation.java:171-175 | the scan order contains exactly the pairs `(i, j)` with `i < j < n`, none of them twice |
| Scan.Convert | src/RPSimulation.java:181-198 | a miss or a tie keeps both types; a colliding pair of distinct types ends with both holding the winner's type, and one of the two entries is unchanged |
| Scan.ResolveChangesOnlyLoser | src/RPSimulation.java:181-195 | a miss or a tie leaves every type alone; a conversion writes the winner's type on the loser only; any entry that changes is one of the pair and takes the winner's type |
| Scan.ResolveMovesOneCount | src/RPSimulation.java:189-194 | a conversion raises the winner's count by one and lowers the loser's by one |
| Scan.PassStateIsFold | src/RPSimulation.java:172-175 | after the loops reach `(i, j)` the types are those of folding the pair step over every pair visited so far |
| Scan.PassStateComplete | src/RPSimulation.java:171-201 | when both loops finish, the types are those of folding the pair step over the whole scan order |
| Scan.ScanKeepsTypesPresent | src/RPSimulation.java:183-195 | a pass never produces a type that was absent before it; a single-type population is unchanged |
| Scan.ScanDisjoint | src/RPSimulation.java:176-181 | a pass in which no two discs overlap changes no type |
| Scan.CollidingSymmetric | src/RPSimulation.java:176-181 | the squared-distance overlap test gives the same answer for both orders of a pair |
| Scan.TouchedSnoc | src/RPSimulation.java:174-181 | examining one more pair adds its two entities to the touched ones exactly when they overlap |
| Scan.TouchedAppend | src/RPSimulation.java:172-175 | the entities touched by two stretches of pairs in a row are those touched by either stretch |
| Scan.RowTouchedIsTouched | src/RPSimulation.java:174-181 | collecting the overlapping pairs of a row column by column gives the entities touched by the row's pairs |
| Scan.TouchedRowsIsTouched | src/RPSimulation.java:172-181 | collecting them row by row gives the entities touched by the pairs in scan order |
| Scan.ResolveAllUntouched | src/RPSimulation.java:176-195 | a pass keeps the type of every entity that is in no overlapping pair |
| Scan.IsolatedUntouched | src/RPSimulation.java:176-181 | an entity that overlaps no other is in no overlapping pair of any pass |
| Scan.ScanSeesEarlierConversions | src/RPSimulation.java:172-198 | three overlapping entities Rock, Paper, Scissors all end as Scissors, because later pairs see the types written by earlier ones |
| Scan.CountsSum | src/RPSimulation.java:264-271 | the three per-type counts add up to the number of entities |
| Simulation.Entity.constructor | src/RPSimulation.java:59-63 | the new entity holds the given position, velocity, radius and type |
| Simulation.GamePanel.constructor | src/RPSimulation.java:86-87 | a new panel has the given size and no entities |
| Simulation.GamePanel.AddEntityRandom | src/RPSimulation.java:127-136 | appends one fresh entity with the drawn radius, position and velocity, keeps the earlier ones, and the new one lies inside the arena on each axis that can hold it |
| Simulation.GamePanel.AddEntityAt | src/RPSimulation.java:138-146 | appends one fresh entity at the given pixel, unclamped, with the drawn radius and velocity, and keeps the earlier ones |
| Simulation.GamePanel.MoveEntities | src/RPSimulation.java:154-166 | every entity's new state is one frame of motion from its old state |
| Simulation.GamePanel.MoveEntity | src/RPSimulation.java:157-163 | one entity's new state is one frame of motion from its old state |
| Simulation.GamePanel.RandomizeVelocity | src/RPSimulation.java:220-225 | only the velocity changes, to the drawn speed in the drawn direction |
| Simulation.GamePanel.BounceEntities | src/RPSimulation.java:227-248 | the two entities' new states are the separation response of their old states |
| Simulation.GamePanel.DetectCollisionsAndResolve | src/RPSimulation.java:168-203 | positions and radii are unchanged; the types are those of the in-order pass over all pairs `i < j` on the old shapes and types; every entity in no overlapping pair keeps its whole old state, velocity included |
| Simulation.GamePanel.ScanRow | src/RPSimulation.java:173-200 | the inner loop over `j` takes the types from the state before row `i` to the state after it, keeping the list; an entity in no overlapping pair of the row, and not already changed, keeps its state from the start of the pass |
| Simulation.GamePanel.CollidePair | src/RPSimulation.java:175-199 | one pair's types become those of the pair step; every other entity is left untouched; a pair that does not overlap keeps both states; an overlapping pair of one type gets exactly the separation response |
| Simulation.GamePanel.GameLoop | src/RPSimulation.java:148-152 | after a frame each shape is the moved shape, the types are those of the pass on the moved shapes, and every entity that fits lies inside the arena; an entity in no overlapping pair after moving, in particular one that overlaps no other, has exactly the state the motion gave it |
| Simulation.GamePanel.CountTypes | src/RPSimulation.java:264-271 | each counter is the number of entities of its type, and the three add up to the number of entities |
| CharFrequency.FirstOccurrencesKeys | src/CharFrequency.java:12-16 | the map's keys are exactly the characters of the input, each once |
| CharFrequency.FirstOccurrencesOrdered | src/CharFrequency.java:12-16 | the key order is the order of first occurrence in the input |
| CharFrequency.TotalIsLength | src/CharFrequency.java:14-16 | the counts add up to the input length |
| CharFrequency.FrequenciesCorrect | src/CharFrequency.java:12-16 | one entry per distinct character, each with its number of occurrences (at least one), every input character has an entry, and the counts add up to the input length |
| CharFrequency.FrequenciesOrdered | src/CharFrequency.java:12-18 | the entries come in the order of their characters' first occurrences |
| CharFrequency.DecimalRoundTrip | src/CharFrequency.java:19 | the decimal numeral written for a count reads back as that count |
| CharFrequency.Decimal | src/CharFrequency.java:19 | a count is written as at least one ASCII digit, with no leading zero |
| CharFrequency.FormatIsJoined | src/CharFrequency.java:18-20 | the built string is the items joined by single spaces, plus one trailing space when there is at least one item |
| CharFrequency.Trim | src/CharFrequency.java:22 | the result is a contiguous middle part of the input, everything cut from either end is at or below U+0020, and a non-empty result starts and ends above U+0020 |
| CharFrequency.TrimmedShape | src/CharFrequency.java:18-22 | for an input with no character at or below U+0020, the output is the items `c(n)` joined by single spaces with no trailing space |
| CharFrequency.EmptyInput | src/CharFrequency.java:10-22 | an empty input gives the empty string |
| CharFrequency.FrequenciesOfRuns | src/CharFrequency.java:12-16 | spelling out runs of distinct characters and counting the result gives the runs back |
| CharFrequency.Example | src/CharFrequency.java:6-7 | `"aaabbccccdddddfffff"` gives `"a(3) b(2) c(4) d(5) f(5)"` |
| CharFrequency.LeadingBlankKeyIsTrimmed | src/CharFrequency.java:19-22 | a leading blank becomes a key, and the trim cuts it off the line: `" a"` gives `"(1) a(1)"` |
| CharFrequency.CountCharacters | src/CharFrequency.java:12-16 | the first loop builds the key order of first occurrences and maps exactly the input's characters to their occurrence counts |
| CharFrequency.AppendEntries | src/CharFrequency.java:18-20 | the second loop builds `key(count) ` for each key in order |
| CharFrequency.CompressString | src/CharFrequency.java:10-23 | the output is the trimmed formatting of the first-occurrence-ordered counts; when no input character is at or below U+0020 it is the items joined by single spaces |

## Left out

- Presentation and event plumbing are not modelled: `main`, the Swing frame and buttons, the timer, `start`/`pause`, `repaint`, the drawing in `paintComponent`, `drawEntity`, the mouse listener, and `colorFor`/`updateColor`. The colour field of an entity is therefore absent.
- `reset` and both `addRandomEntities` overloads are left out. They only choose how many entities to spawn and of which type (fixed counts in `reset`, a random type per entity in `addRandomEntities(int n)`), and loop over `addEntityRandom`, which is modelled.
- `synchronizedList` and the `synchronized` blocks are left out. The model is single-threaded.
- `double` arithmetic is modelled by exact `real` arithmetic. Rounding, NaN and infinities are not modelled.
- `java.util.Random` and `Math.cos`/`Math.sin` are left out. Each `nextDouble()` draw is a parameter in [0, 1). The cosine and sine of the drawn angle are a parameter pair on the unit circle, so `Math.PI` does not appear. Inside the collision pass, the draws for a converted entity are chosen nondeterministically among valid values. `rand.nextInt(3)` in the mouse listener and in `addRandomEntities` is not modelled.
- Simulation.GamePanel.BounceEntities: the source divides by `Math.sqrt` of the squared distance. The model uses the algebraically equal real expression without the root, modelled exactly on each branch.
- Simulation.GamePanel.MoveEntity, Simulation.GamePanel.ScanRow, Simulation.GamePanel.CollidePair, CharFrequency.CountCharacters and CharFrequency.AppendEntries are loop bodies or loops of one source method, split out as their own methods. Each keeps the source's statements in the source's order.
- Simulation.GamePanel.CollidePair: for a conversion, the contract states the types and leaves the velocities of the two entities unstated. They are the random redraw of the loser followed by the separation response.
- Simulation.GamePanel.AddEntityAt: like the source, it does not clamp the clicked position into the arena. So `Contained()` is promised only after a frame (`GameLoop`), not after a click.
- Scan.ResolveAll skips a pair that does not name two distinct in-range positions. The scan order never contains such a pair (`ScanOrderVisitsEachPairOnce`).
- The Java field `type` is called `kind` in the model, because `type` is a Dafny keyword.
- CharFrequency: Java `char` is a UTF-16 code unit, while Dafny `char` is a Unicode scalar value. The model counts Dafny characters, so a string holding surrogate pairs is not modelled unit by unit.
- CharFrequency: counts are unbounded `nat`. A Java `Integer` count cannot overflow, because a Java string is shorter than 2^31.
- CharFrequency: `LinkedHashMap` is modelled as its key insertion order (a `string`) together with a `map<char, nat>`. `Integer.toString` is modelled by `Decimal`. `String.trim` is modelled as the JDK's scan from both ends for characters above U+0020, followed by one substring.
