/** The records of the clock (src/wlclock.h, src/output.h, src/surface.h) and
    the trace of its externally visible effects.

    The three records point at each other (an output at its clock and its
    surface, a surface back at its output), so they share one module, as the
    C headers share forward declarations.  A C pointer to a foreign protocol
    object (wl_compositor, zwlr_layer_surface_v1, ...) is modelled only by
    whether it is null; the protocol object itself is identified by the record
    that owns it. */
module Records {
  import opened CTypes
  import opened Sequences

  const EXIT_SUCCESS: int := 0
  const EXIT_FAILURE: int := 1

  /** `ZWLR_LAYER_SHELL_V1_LAYER_BOTTOM` of the wlr-layer-shell protocol. */
  const LAYER_BOTTOM: u32 := 1
  /** `ZWLR_LAYER_SURFACE_V1_ANCHOR_BOTTOM` of the wlr-layer-shell protocol. */
  const ANCHOR_BOTTOM: i32 := 2

  /** The exclusive-zone value that means "as large as the surface". */
  const EXCLUSIVE_ZONE_AUTO: i32 := 1

  const DEFAULT_SIZE: i32 := 100
  const DEFAULT_NAMESPACE: string := "wlclock"

  /** An optional value: a C pointer that may be null, a lookup that finds
      nothing, or a constructor that can fail. */
  datatype Option<T> = None | Some(value: T)

  /** One externally visible effect: a request sent to the compositor, a call
      into the buffer code, or a `free` of one of the records.  Every method with
      such effects takes the effects so far as a ghost `log` and returns them,
      extended in order, as `log'`. */
  datatype Call =
    | RegistryBind(name: u32, iface: string, version: nat)
    | GetXdgOutput(output: Output)
    | CompositorCreateSurface(surface: Surface)
    | GetLayerSurface(surface: Surface, output: Output, layer: u32, namespace: string)
    | SetSize(surface: Surface, width: u32, height: u32)
    | SetAnchor(surface: Surface, anchor: u32)
    | SetMargin(surface: Surface, top: i32, right: i32, bottom: i32, left: i32)
    | SetExclusiveZone(surface: Surface, zone: i32)
      /** create a region, set it as the input region, destroy the region */
    | SetEmptyInputRegion(surface: Surface)
    | SurfaceCommit(surface: Surface)
    | AckConfigure(surface: Surface, serial: u32)
    | SetBufferScale(surface: Surface, scale: i32)
    | Attach(surface: Surface)
    | DamageBuffer(surface: Surface)
    | LayerSurfaceDestroy(surface: Surface)
    | SurfaceDestroy(surface: Surface)
    | FinishBuffer(surface: Surface, index: nat)
    | FreeSurface(surface: Surface)
    | OutputDestroy(output: Output)
    | FreeOutput(output: Output)

  /** `struct Wlclock`: the session record every callback receives. */
  class Clock {
    /** Globals bound from the registry: true when the pointer is non-null. */
    var compositor: bool
    var shm: bool
    var layerShell: bool
    var xdgOutputManager: bool

    /** The `outputs` list, head first. */
    var outputs: seq<Output>
    /** The name of the output to show the clock on; None means every output. */
    var output: Option<string>

    var now: int
    var loop: bool
    var verbosity: int
    var ret: int

    var layer: u32
    var namespace: string
    var size: i32
    var exclusiveZone: i32
    var marginTop: i32
    var marginRight: i32
    var marginBottom: i32
    var marginLeft: i32
    var anchor: i32
    var input: bool

    /** The list is a proper list of this clock's outputs, and each output's
        surface points back at it. */
    ghost predicate Valid()
      reads this`outputs, outputs
    {
      && Distinct(outputs)
      && (forall o :: o in outputs ==> o.clock == this)
      && (forall o :: o in outputs && o.surface != null ==> o.surface.output == o)
    }

    /** The zero-initialised record with the defaults `main` sets before the
        command line is read. */
    constructor ()
      ensures ret == EXIT_FAILURE && loop && verbosity == 0
      ensures size == DEFAULT_SIZE && exclusiveZone == EXCLUSIVE_ZONE_AUTO && input
      ensures layer == LAYER_BOTTOM && anchor == ANCHOR_BOTTOM && namespace == DEFAULT_NAMESPACE
      ensures outputs == [] && output == None && now == 0
      ensures !compositor && !shm && !layerShell && !xdgOutputManager
      ensures marginTop == 0 && marginRight == 0 && marginBottom == 0 && marginLeft == 0
      ensures Valid()
    {
      compositor, shm, layerShell, xdgOutputManager := false, false, false, false;
      outputs, output, now := [], None, 0;
      ret, loop, verbosity := EXIT_FAILURE, true, 0;
      size, exclusiveZone, input := DEFAULT_SIZE, EXCLUSIVE_ZONE_AUTO, true;
      layer, anchor, namespace := LAYER_BOTTOM, ANCHOR_BOTTOM, DEFAULT_NAMESPACE;
      marginTop, marginRight, marginBottom, marginLeft := 0, 0, 0, 0;
    }
  }

  /** `struct Wlclock_output`: one advertised wl_output. */
  class Output {
    const clock: Clock
    const globalName: u32
    var name: Option<string>
    var scale: u32
    /** True once the zxdg_output_v1 exists. */
    var configured: bool
    var surface: Surface?

    /** The fields `create_output` sets on the zeroed allocation. */
    constructor (clock: Clock, globalName: u32)
      ensures this.clock == clock && this.globalName == globalName
      ensures scale == 1 && !configured && name == None && surface == null
    {
      this.clock := clock;
      this.globalName := globalName;
      scale := 1;
      configured := false;
      name := None;
      surface := null;
    }
  }

  /** `struct Wlclock_surface`: the clock surface shown on one output.  Its two
      buffers belong to the buffer code, which is not part of this model. */
  class Surface {
    const output: Output
    /** `surface->surface != NULL` */
    var hasWlSurface: bool
    /** `surface->layer_surface != NULL` */
    var hasLayerSurface: bool
    var size: i32
    var configured: bool

    /** The fields `create_surface` sets on the zeroed allocation. */
    constructor (output: Output, size: i32)
      ensures this.output == output && this.size == size
      ensures !hasWlSurface && !hasLayerSurface && !configured
    {
      this.output := output;
      this.size := size;
      hasWlSurface := false;
      hasLayerSurface := false;
      configured := false;
    }
  }
}
