# Example invasion: a Dafny model of the invasion lifecycle

This project models the state-keeping core of a sample game modification that adds an
"invasion" event. The world carries three values: `isActive`, `killCount` and
`killsNeeded`. A summoning item starts the invasion and a disabling item cancels it. Each
death of one of the two invasion enemies (a zombie and a bat) counts toward the
threshold. A per-tick check ends the invasion once the threshold is met.

While the invasion runs and the player stands in the forest by day, three things happen:
- the spawn rates and the spawn pool are replaced;
- the invasion music plays;
- a progress-bar layer is inserted into the interface layer list.

The activity flag and the kill count are saved with the world and synchronised over the
network. The threshold is neither saved nor synchronised.

Everything is modelled as immutable values and pure functions. C# `int` is modelled
explicitly as `MachineInts.Int32`, and `killCount++` and `killsNeeded += …` wrap around
as unchecked C# arithmetic does. The network packet is modelled at the byte level: four
little-endian bytes for an `int`, one byte for a `bool`. The world tag is a map from key
to a boolean or integer entry. At four of the source's throw sites the model returns an
error value:
- a mistyped tag entry;
- a short network stream;
- a null interface layer met by the unguarded search;
- inserting at index -1.

The first two errors carry the invasion state as the throw leaves it, because a field
assigned before the throw stays assigned. The two duplicate-key throws are excluded by a
`requires` instead (see "## Left out").

Parameters replace engine state:
- the number of active players is a `nat`;
- the player's zone and the time of day are a `Surroundings` value;
- `NPCLoader.NPCCount` and the two enemies' type ids are integers.

`Lifecycle` adds the host's event loop between world loads and network receives. An
item's `UseItem` runs only after its `CanUseItem` returned true. Kills and ticks run
unconditionally, one event at a time.

Some of the code's behaviour is easy to misread, and the model follows the code:
- Each activation adds `25·(N−1)` to the current threshold, and nothing ever resets it.
  So thresholds accumulate across activations in multiplayer; they are not
  `80 + 25·(N−1)` each time (`InvasionSummon.ThresholdAccumulates`).
- The tick check does not look at `isActive`.
- Several kills can land between two ticks, so `killCount` can pass `killsNeeded` while
  active (`Lifecycle.KillsCanOvershootBetweenTicks`). What holds is that after a tick,
  with a positive threshold, `killCount < killsNeeded`.
- The initialiser's comment speaks of 40 kills per player, but the code adds 25 per extra
  player. The model uses 25.

## Model

| member | source | states |
|---|---|---|
| ExampleInvasion.Initial | Content/ExampleInvasion.cs:17-19 | a fresh process has no invasion, a kill count of 0 and a threshold of 80 |
| ExampleInvasion.PreUpdateWorld | Content/ExampleInvasion.cs:43-48 | at or past the threshold the invasion ends and the count is cleared, otherwise nothing changes; the threshold is never changed; with a positive threshold the count is below it afterwards |
| ExampleInvasion.PreUpdateWorldIdempotent | Content/ExampleInvasion.cs:45-48 | running the tick check twice equals running it once |
| ExampleInvasion.PreUpdateWorldIgnoresActivity | Content/ExampleInvasion.cs:45-48 | the check fires on an inactive state as well: the outcome does not depend on isActive once the threshold is met |
| ExampleInvasion.InitialIsAtRest | Content/ExampleInvasion.cs:17-48 | the tick leaves the initial state unchanged |
| WorldData.SaveWorldData | Content/ExampleInvasion.cs:22-27 | the tag gains exactly the two keys, holding the activity flag and the kill count; existing entries are kept |
| WorldData.LoadWorldData | Content/ExampleInvasion.cs:29-40 | fails exactly when a present key holds the wrong kind of value; a present key sets its field, a missing key leaves it; the threshold is never loaded; a mistyped flag fails with nothing written, a mistyped kill count fails with the flag already written |
| WorldData.LoadAfterSave | Content/ExampleInvasion.cs:22-40 | loading a saved tag restores isActive and killCount exactly and keeps the loader's killsNeeded |
| WorldData.LoadEmptyIsIdentity | Content/ExampleInvasion.cs:29-40 | a tag with neither key loads as no change |
| WorldData.SaveIgnoresThreshold | Content/ExampleInvasion.cs:22-27 | states differing only in killsNeeded save identically |
| NetSync.EncodeBool | Content/ExampleInvasion.cs:87 | a bool is one byte, non-zero exactly when true |
| NetSync.DecodeEncodeInt32 | Content/ExampleInvasion.cs:86-92 | the four bytes written for an Int32 read back as that Int32 |
| NetSync.EncodeDecodeInt32 | Content/ExampleInvasion.cs:86-92 | any four bytes are the encoding of the Int32 they read as |
| NetSync.NetSend | Content/ExampleInvasion.cs:84-88 | appends five bytes to the writer: the kill count, then the flag, each decoding back to the field |
| NetSync.NetReceive | Content/ExampleInvasion.cs:90-94 | fails exactly on fewer than five bytes; otherwise the kill count is the Int32 whose encoding is the first four bytes, the flag is true exactly when the fifth byte is non-zero, the receiver's threshold is kept and the bytes after the fifth are left; with exactly four bytes the failure leaves the kill count already read |
| NetSync.ReceiveAfterSend | Content/ExampleInvasion.cs:84-94 | receiving what was sent restores killCount and isActive, keeps the receiver's killsNeeded and leaves trailing bytes untouched |
| SpawnRates.EditSpawnRate | Content/ExampleInvasion.cs:106-117 | the rates become (100, 25) while active in the forest by day, and are otherwise returned unchanged |
| SpawnRates.SpawnRateChangesIff | Content/ExampleInvasion.cs:106-117 | unless the host's rates are already (100, 25), they change if and only if active in the forest by day |
| SpawnRates.EditSpawnPool | Content/ExampleInvasion.cs:119-142 | outside the gate the pool is untouched; inside it, the only types in [0, NPCCount) left are the two invasion enemies, each at weight 50; keys outside that range are kept with their weights |
| SpawnRates.FilteredWeightBelow | Content/ExampleInvasion.cs:128-139 | in the edited pool, the weight of types below n counts 50 for each invasion enemy below n |
| SpawnRates.FilteredPoolWeighs100 | Content/ExampleInvasion.cs:126-139 | the weights of all NPC types in the edited pool add up to 100 |
| InvasionMusic.IsSceneEffectActive | Content/ExampleInvasion.cs:150-162 | the music is active if and only if the invasion is active and the player is in the forest by day |
| InvasionMusic.MusicIffSpawnOverride | Content/ExampleInvasion.cs:150-162 | the music plays exactly when the spawn rates are overridden for the same player |
| ProgressUI.FindInventoryUnguarded | Content/ExampleInvasion.cs:179 | fails exactly when a null entry precedes any inventory layer; otherwise gives the first inventory layer's index, or -1 when there is none |
| ProgressUI.FindInventory | Content/ExampleInvasion.cs:183 | gives the first inventory layer's index, skipping nulls, or -1 when there is none |
| ProgressUI.SearchesAgree | Content/ExampleInvasion.cs:179-183 | where the unguarded search succeeds, both searches return the same index |
| ProgressUI.ModifyInterfaceLayers | Content/ExampleInvasion.cs:177-193 | fails exactly when a null precedes the inventory layer, or when active with no inventory layer; unchanged when inactive; when active, the progress layer is inserted at the first inventory layer's index |
| ProgressUI.InsertionKeepsOrder | Content/ExampleInvasion.cs:183-191 | after the insertion the list is one longer, the progress layer sits at the inventory layer's old index with the inventory layer right after it, and removing it gives back the original list |
| InvasionSummon.CanUseItem | Content/InvasionSummon.cs:38-52 | usable if and only if not active, in the forest and by day; never while active |
| InvasionSummon.UseItem | Content/InvasionSummon.cs:54-74 | activates, keeps the kill count, adds 25 per extra player to the threshold modulo 2^32, and exactly that sum whenever it fits in an Int32; with one player the threshold is unchanged, with at least one it does not decrease; returns true |
| InvasionSummon.ThresholdAccumulates | Content/InvasionSummon.cs:57 | two activations with N players around a completed invasion add 50·(N−1) to the threshold |
| InvasionDisable.CanUseItem | Content/InvasionDisable.cs:36-44 | usable if and only if the invasion is active |
| InvasionDisable.UseItem | Content/InvasionDisable.cs:46-66 | deactivates, clears the kill count, keeps the threshold, returns true |
| InvasionDisable.UseItemIdempotent | Content/InvasionDisable.cs:48-49 | cancelling twice gives the same state as cancelling once |
| InvasionDisable.CancelledIsAtRest | Content/InvasionDisable.cs:46-49 | with a positive threshold the tick check leaves a cancelled state unchanged |
| InvasionEnemies.OnKill | Content/InvasionZombie.cs:33-44 | models InvasionBat.cs:33-44 too, whose body is the same: while active the count goes up by one (wrapping to the Int32 minimum at the maximum); while inactive nothing changes; isActive and killsNeeded never change; a non-negative count below the maximum stays non-negative |
| Lifecycle.Step | Content/ExampleInvasion.cs:45-48 | with the item gates of InvasionSummon.cs:38-57 and InvasionDisable.cs:36-49 and the kills of InvasionZombie.cs:35-37: only a permitted summon activates; deactivation happens only by cancel or met threshold and always clears the count; the count moves otherwise only by a kill while active; the threshold moves only by a permitted summon |
| Lifecycle.RunWithoutSummon | Content/InvasionSummon.cs:56-57 | over any run with no summon, the threshold is unchanged and an inactive invasion stays inactive |
| Lifecycle.ThresholdNeverDecreases | Content/InvasionSummon.cs:57 | over any run whose summons have at least one player and whose bonus fits in an Int32, the threshold never decreases and grows by at most 25 per extra player per summon |
| Lifecycle.KillCountStaysNonNegative | Content/InvasionZombie.cs:37 | over any run with fewer than 2^31 possible kills, a non-negative count stays non-negative and grows by at most one per kill |
| Lifecycle.KillsWhileActive | Content/InvasionBat.cs:35-37 | n kills while active add n to the count |
| Lifecycle.KillsCanOvershootBetweenTicks | Content/InvasionBat.cs:35-37 | two kills before a tick take an active count of 79 past a threshold of 80 while the invasion stays active |
| Lifecycle.EightyKillsEndSinglePlayerInvasion | Content/ExampleInvasion.cs:17-48 | from a fresh process, a single-player summon, 80 kills and a tick end the invasion with the count cleared and the threshold still 80 |

## Left out

- Chat messages and `NetMessage.SendData` broadcasts: host networking side effects with no state of their own.
- The sun-texture swap and its restore in `Unload`, and the music slot lookup: asset plumbing.
- `DrawExampleInvasionUI`, the progress bar's drawing. Its percentage uses floating-point division and clamping, so it is left out.
- `SetDefaults`, `SetStaticDefaults`, journey-mode research sorting and the bestiary `ModBiome`: static configuration.
- How the active-player count is obtained. It is a query over the host's player array, so it is a parameter here.
- The binary reader and writer and the tag compound are host serialisers. They are modelled only as far as these two fields use them: bytes for the network, a key map for the tag. `TagCompound`'s own conversions between stored kinds are not modelled, and a mistyped entry is a load failure.
- WorldData.SaveWorldData: requires that the tag holds neither key yet. `TagCompound.Add` throws on a duplicate key, and the host passes a fresh tag, so that throw is not modelled as an error value.
- SpawnRates.EditSpawnPool: requires that, when the edit happens, the pool holds neither invasion type yet. `Dictionary.Add` throws on a duplicate key, and the host's pool holds these types only through `SpawnChance`, which these NPCs do not define. It also requires the two type ids to be distinct and below `NPCCount`, which the host's type registration guarantees.
- Spawn weights are `real` rather than 32-bit `float`. No behaviour is lost, because the source only copies weights or sets them to 50.
- Lifecycle: its events are summons, cancels, kills and ticks only. World loads and network receives also set `isActive` and `killCount`. For example, loading a world saved mid-invasion makes it active with no summon. So `Lifecycle.Step` and the run lemmas describe the stretches between loads and receives; loads and receives are covered by `WorldData.LoadWorldData` and `NetSync.NetReceive` on their own.
- InvasionSummon.UseItem: "the threshold never decreases" is stated only when the sum fits in an Int32, because the source's `+=` wraps.
- InvasionEnemies.OnKill: "the count stays non-negative" is stated only below the Int32 maximum, because the source's `++` wraps.
- Concurrency: none exists. The host runs every callback in sequence on its simulation thread.
