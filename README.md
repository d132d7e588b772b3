# wlclock core in Dafny

wlclock is a Wayland client that shows an analogue clock on a layer-shell
surface of every output, or of one named output. The part modelled here is
its event-driven core:

- the registry listener that binds the compositor, shm, layer-shell and
  xdg-output-manager globals and creates one output record per advertised
  wl_output;
- the output records. Their scale and name events only overwrite fields.
  Their `done` event updates the output's clock surface, or creates one when
  the output is selected;
- the clock surface. Its layer-surface configure handshake acknowledges the
  serial, adopts the smaller proposed side and redraws. Its `closed` event
  destroys it. Creation and destruction are modelled too;
- the startup capability check and the catch-up pass that configures every
  output still unconfigured: one advertised before either the xdg-output
  manager or the layer shell was bound, or one whose configuration failed
  when it was advertised;
- the minute-aligned poll timeout and the branch on the poll result in the
  main loop;
- the effect of each command-line option on the clock record.

Modules, one file each:

- `CTypes`: the C integer types and conversions, and C's truncating
  division.
- `Sequences`: occurrence counts, prefixes and lists without repetitions,
  used by the proofs about the output list.
- `Records`: the three records `Clock`, `Output` and `Surface` as classes,
  and the `Call` log entries described below.
- `Environment`: the foreign calls that can only fail or succeed.
- `Surfaces`: `src/surface.c`.
- `Outputs`: `src/output.c`.
- `Session`: `src/wlclock.c`, except the option switch.
- `CommandLine`: the option switch in `src/wlclock.c`.

The output list (an intrusive `wl_list`) is the field `Clock.outputs`, in
list order, head first. `Clock.Valid()` states that the list has no
repetitions, that every output on it belongs to this clock, and that every
surface an output points at points back at that output.

Everything the core sends out is recorded in a ghost log of `Call` values,
threaded through the methods as `log` and `log'`: requests to the compositor,
`finish_buffer` calls and `free`s. A freed record is not removed from the
heap, so a dangling pointer into it stays visible in the model. Four
behaviours of the source are kept as written:

- `destroy_surface` never clears `output->surface`. After a `closed` event
  the output still points at the freed surface. The next update of that
  surface commits it after its free (`Surfaces.CommitAfterClose`). A later
  `destroy_output` frees it a second time (`Outputs.ClosedSurfaceFreedTwice`).
- `create_surface` stores the new record in `output->surface` before its
  protocol objects exist. When one of them cannot be created it returns
  false and leaves the partial record attached.
- `output_update_surface` ignores `create_surface`'s result.
- An output record that cannot be created during the startup roundtrip
  clears the loop flag and sets `EXIT_FAILURE`. The startup check does not
  look at either, and `clock_run` then stores `EXIT_SUCCESS` and takes no
  turn, so the program exits with success
  (`Session.OutputFailureAtStartup`).

Foreign calls whose only relevance is that they may fail are methods in
`Environment` that return an arbitrary boolean. These are `calloc`, the
libwayland constructors except the two listed under "Left out" (the
wl_output bind and `wl_compositor_create_region`), `next_buffer`, `wl_display_dispatch` and
`wl_display_flush`. What is proved therefore holds for either outcome. The
clock `time(NULL)` and the result of `poll` are inputs: one `Session.Poll`
value per turn of the loop. The command line is an already parsed sequence of
`CommandLine.Opt` values.

`src/wlclock.h` does not declare the `size` field of `struct Wlclock`, which
`main` and `create_surface` use. The model gives `Clock` an `i32` field
`size` for it.

## Model

| member | source | states |
|---|---|---|
| CTypes.U32OfI32 | src/output.c:27 | `(uint32_t)` of an `int32_t` keeps non-negative values and adds 2^32 to negative ones; the bit pattern is unchanged modulo 2^32 |
| CTypes.I32OfU32 | src/surface.c:38 | storing a `uint32_t` into the `int32_t` size keeps values below 2^31 and wraps larger ones modulo 2^32 |
| CTypes.ConversionsInverse | src/surface.c:38 | the two conversions are inverse bijections between `int32_t` and `uint32_t` |
| CTypes.CDiv | src/wlclock.c:215 | C division by a positive divisor truncates toward zero: the remainder lies in [0, d) for a non-negative dividend and in (-d, 0] for a negative one |
| Records.Clock.constructor | src/wlclock.c:272-282 | `main`'s defaults: failure status, loop on, verbosity 0, size 100, exclusive zone 1, input on, bottom layer, bottom anchor, namespace "wlclock", empty output list, nothing bound; the record is valid |
| Records.Output.constructor | src/output.c:116-121 | a new output has its clock, its global name, scale 1, no name, is unconfigured and has no surface |
| Records.Surface.constructor | src/surface.c:97-102 | a new surface points at its output, has the given size, has neither protocol object and is unconfigured |
| Surfaces.Min | src/surface.c:23-26 | the result is one of the two arguments and no larger than either |
| Surfaces.ExclusiveZone | src/surface.c:57-62 | the sentinel 1 yields the surface size; any other configured value is returned verbatim |
| Surfaces.ExclusiveZoneTracksSizeOnlyForSentinel | src/surface.c:57-62 | the zone depends on the surface size if and only if the configured value is the sentinel |
| Surfaces.LayerConfigurationShape | src/surface.c:64-83 | the layer configuration sets a size × size square, the clock's anchor, margins and exclusive zone; it empties the input region exactly when input is disabled; every request concerns the surface and none is a commit |
| Surfaces.ConfigureLayerSurface | src/surface.c:64-83 | the method appends exactly the layer configuration of the surface |
| Surfaces.RenderSurfaceFrame | src/surface.c:153 | rendering either sends nothing (no free buffer) or sets the output's scale, attaches and damages the buffer |
| Surfaces.UpdateSurface | src/surface.c:148-155 | a null or unconfigured surface sends nothing; a configured one re-sends its layer configuration, renders and commits |
| Surfaces.UpdateCallsConcern | src/surface.c:148-155 | every request an update sends concerns the surface updated |
| Surfaces.UpdateCommitsOnce | src/surface.c:148-155 | an update commits a configured surface exactly once and sends nothing for an unconfigured one |
| Surfaces.LayerSurfaceHandleConfigure | src/surface.c:28-41 | the serial is acknowledged first; the size becomes min(w, h) when both are positive and is unchanged otherwise; the surface becomes configured and is updated |
| Surfaces.ConfigureAcksThenCommitsOnce | src/surface.c:36-40 | a configure event starts with the acknowledgement and commits exactly once |
| Surfaces.ConfiguredSizeFits | src/surface.c:37-38 | when min(w, h) fits an `int32_t`, the new size is positive, equals one side and exceeds neither |
| Surfaces.DestroySurface | src/surface.c:126-137 | nothing for null; otherwise it destroys the layer surface and the wl_surface only when each exists, finishes both buffers, frees the record and changes no field |
| Surfaces.DestroyFreesOnlyItself | src/surface.c:126-137 | destroying a surface frees that surface exactly once and no other surface |
| Surfaces.DestroyReleasesEverything | src/surface.c:130-136 | a destroyed surface is freed once, both buffers are finished, and each protocol object is destroyed if and only if it exists |
| Surfaces.LayerSurfaceHandleClosed | src/surface.c:43-50 | a closed event destroys the surface and does nothing else |
| Surfaces.CommitAfterClose | src/surface.c:43-50 | because the output keeps pointing at a closed surface, an update of it commits the record after the record was freed |
| Surfaces.CreateSurface | src/surface.c:85-124 | a failed allocation changes nothing; otherwise the output points at a fresh, unconfigured surface of the clock's size that holds exactly the protocol objects created before any failure; a complete creation sends create, get-layer-surface, the layer configuration and one commit |
| Surfaces.CreatedCommitsOnceWithoutBuffer | src/surface.c:118-121 | a created surface is committed exactly once, with no buffer attached |
| Surfaces.UpdateAllSurfaces | src/surface.c:157-164 | it updates, in list order, the surface of every output that has one, and no others |
| Surfaces.UpdateAllCommitCount | src/surface.c:157-164 | a pass over the first outputs commits a configured surface as often as its owning output occurs among them, and an unowned one never |
| Surfaces.UpdateCommitsOnlyItself | src/surface.c:148-155 | an update of one surface commits no other surface |
| Surfaces.UpdateAllCommitsEachConfiguredOnce | src/surface.c:157-164 | a pass commits each configured surface attached to a listed output exactly once, and any other surface never |
| Surfaces.DestroyAllSurfaces | src/surface.c:139-146 | it destroys, in list order, the surface of every output that has one |
| Surfaces.DestroyAllFreeCount | src/surface.c:139-146 | a pass over the first outputs frees a surface as often as its owning output occurs among them, and an unowned one never |
| Surfaces.DestroyAllFreesEachOnce | src/surface.c:139-146 | the pass frees each surface attached to a listed output exactly once, and any other surface never |
| Outputs.OutputHandleScale | src/output.c:23-30 | a scale event sets only the scale, to the factor's unsigned bit pattern |
| Outputs.XdgOutputHandleName | src/output.c:63-70 | a name event replaces only the name |
| Outputs.OutputUpdateSurface | src/output.c:32-40 | a surface is created exactly when the output is configured, named, and no target or a target equal to its name is set; otherwise nothing happens; the outcome of creation is not acted on |
| Outputs.OutputHandleDone | src/output.c:42-54 | an existing surface is updated; otherwise a surface is created for a selected output and nothing happens for another; the clock stays valid |
| Outputs.ConfigureOutput | src/output.c:82-98 | the output becomes configured and its xdg_output is requested exactly when that request succeeds; on failure nothing changes |
| Outputs.CreateOutput | src/output.c:100-140 | the bind is always sent; a failed allocation leaves the list alone and returns false; otherwise a fresh output with scale 1, no name, no surface and the given global name is the new head; it is configured at once if and only if both the xdg-output manager and the layer shell are bound, and then the result tells whether that worked |
| Outputs.FindGlobal | src/output.c:142-149 | the result is the first position whose output has the global name, or none when no output has it |
| Outputs.GetOutputFromGlobalName | src/output.c:142-149 | the loop returns the first output with the global name, or null exactly when there is none |
| Outputs.WithoutRemovesOne | src/output.c:157 | in a list without repetitions, removing a member takes out exactly that element at its position and keeps the list free of repetitions |
| Outputs.DestroyOutput | src/output.c:151-160 | nothing for null; otherwise the output's surface is destroyed if it has one, the output alone leaves the list, the wl_output is destroyed, the record is freed and the clock stays valid |
| Outputs.OutputDestroyFreesOnlyItself | src/output.c:151-160 | destroying an output frees that output exactly once and no other |
| Outputs.OutputDestroyFreesItsSurface | src/output.c:154-155 | destroying an output frees the surface it points at exactly once |
| Outputs.ClosedSurfaceFreedTwice | src/output.c:154-155 | a surface freed by a closed event is freed again when its output is destroyed |
| Outputs.DestroyAllOutputs | src/output.c:162-168 | every output is destroyed, head first, and the list ends empty |
| Outputs.DestroyAllOutputFreeCount | src/output.c:162-168 | the first destructions free each output as often as it occurs among the first outputs of the list |
| Outputs.DestroyAllOutputsFreesEachOnce | src/output.c:162-168 | the pass frees each listed output exactly once and no other |
| Session.GlobalNamed | src/wlclock.c:33-53 | an interface name denotes the global whose protocol name it is, or none; no singleton global is named wl_output |
| Session.RegistryHandleGlobal | src/wlclock.c:28-63 | a singleton global is bound into its own field only, and the bind is logged when the proxy is non-null; a wl_output creates an output, and if that fails the loop stops with `EXIT_FAILURE`; any other interface changes nothing |
| Session.RegistryHandleGlobalRemove | src/wlclock.c:65-71 | the first output with the global name is destroyed and removed; when none has it nothing changes |
| Session.FirstMissing | src/wlclock.c:116-123 | the result is none exactly when all four globals are bound; otherwise it is unbound and every global checked before it is bound |
| Session.InitCheckAndCatchUp | src/wlclock.c:115-131 | startup fails with the first missing global before touching any output; otherwise every unconfigured output is configured head first; on the first failure it stops, with the outputs before it configured and the rest unchanged |
| Session.GetTimeout | src/wlclock.c:213-216 | the timeout is a whole number of seconds in milliseconds |
| Session.TimeoutAligned | src/wlclock.c:213-216 | for every time, now plus the timeout in seconds is a whole minute |
| Session.TimeoutBounds | src/wlclock.c:213-216 | for a time not before the epoch, the timeout is positive and at most 60000, and exactly 60000 on a minute boundary |
| Session.TimeoutBeforeEpoch | src/wlclock.c:213-216 | before the epoch the truncating division gives a timeout of one minute plus the seconds back to the previous boundary, between 60000 and 120000 |
| Session.ClockRunStep | src/wlclock.c:241-261 | the time is stored and the timeout computed from it; a zero result updates all surfaces; a positive result dispatches on POLLIN, then flushes on POLLOUT unless the dispatch failed, and the turn fails exactly when a made dispatch or flush failed; a negative result does nothing and does not fail |
| Session.ClockRun | src/wlclock.c:218-268 | the status is set to success; a loop flag clear at entry takes no turn and leaves success; otherwise success stays while the flag holds and polls remain; the run ends with `EXIT_FAILURE` exactly when its last poll was ready and that turn's dispatch or flush failed; the log is the concatenation of the turns' effects |
| Session.OutputFailureAtStartup | src/wlclock.c:289-292 | when a `wl_output` record cannot be created during the startup roundtrip, the loop flag is clear and no turn is taken; the status is success when the startup check passes and failure when it does not |
| Session.RunCommitsOncePerTimeout | src/wlclock.c:245-246 | over a run, each configured surface attached to a listed output is committed once per timed-out poll, and any other surface never |
| CommandLine.Stop | src/wlclock.c:182-208 | the stop is the position of the first `-h`, `-V` or unrecognised option, or the number of options when there is none |
| CommandLine.HandleCommandFlags | src/wlclock.c:158-211 | the result is true exactly when no option stops parsing; `-h`/`-V` set the status to success and an unrecognised option leaves it; verbosity rises by the number of `-v`, the output name is the last `--output`'s, and input is cleared by `--no-input`, all counting only the options before the stop |
| CommandLine.ApplyCompletes | src/wlclock.c:182-210 | the switch gets through every option exactly when none of them is `-h`, `-V` or unrecognised |
| CommandLine.ApplyStatus | src/wlclock.c:184-207 | parsing that stops at `-h` or `-V` sets the status to success; stopping at an unrecognised option or not stopping leaves it |
| CommandLine.ApplyVerbosity | src/wlclock.c:189-191 | the verbosity rises by exactly the number of `-v` before the stop |
| CommandLine.ApplyOutput | src/wlclock.c:198-200 | the output name is the one the options before the stop leave, the last `--output` winning |
| CommandLine.ApplyInput | src/wlclock.c:202-204 | input stays enabled exactly when it was and no `--no-input` comes before the stop |
| CommandLine.LastOutputIsLast | src/wlclock.c:198-199 | the last `--output` determines the output name |
| CommandLine.LastOutputAbsent | src/wlclock.c:198-199 | without `--output` the output name stays as it was |
| CommandLine.StopIgnoresRest | src/wlclock.c:182-208 | options after the stopping one cannot move the stop |

## Left out

- `src/render.c` and `src/buffer.c`: the drawing and the buffer pool. `render_surface_frame` is one step that asks `next_buffer` for a buffer and may fail. `finish_buffer` is only a log entry.
- The flush loop at the top of each turn of `clock_run`, with its EAGAIN retry. It compares the flush result with 1, not -1. It is I/O plumbing and is not modelled.
- Events delivered by `wl_display_dispatch` are not composed into `Session.ClockRun`. They are the separate handler methods. The run therefore never clears the loop flag itself. It ends when the finite sequence of polls is used up.
- Session.ClockRun: no turn clears the loop flag, so the flag can only end the run before the first turn.
- `poll` is asked only for POLLIN. The model still takes both `revents` bits as given, as the source tests both.
- `time_t` and `int` overflow: the verbosity count and `now` are unbounded integers.
- `create_output` aborts the program through `assert` when binding the wl_output fails. The model treats that bind as always succeeding.
- The xdg_output an output obtains is never destroyed by `destroy_output`. The model has no request for its destruction. The leak is modelled only by that absence.
- `clock->compositor` as used by `create_surface` and `configure_layer_surface`: the model assumes it is non-null whenever they run. The source relies on event order for that: output `done` and name events, which lead to both, arrive only after the startup roundtrip, and the startup check then stops the program if no compositor was bound. The model does not track the compositor pointer there.
- Surfaces.ConfigureLayerSurface: `wl_compositor_create_region` is treated as always succeeding when input is disabled. If it returned null, the source would pass null to `wl_region_destroy` and crash; the model has no crash outcome for it.
- `clocklog`, `set_string` and the usage and version texts: logging and string copying. Names are whole immutable strings.
- Signal handling, `finish_wayland` beyond `destroy_all_outputs`, and the connection set-up and roundtrip in `init_wayland`.
- Session.RegistryHandleGlobal: the advertised version is ignored, as in the source. Rebinding a global that is already bound overwrites the pointer; the leak of the old proxy is not modelled.
