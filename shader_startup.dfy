/**
 * The shader start-up sequence of main (gl_texture.c): compile the vertex
 * stage, then the fragment stage, then link; each failure reports the
 * device's log and makes main return -1. Compilation and linking are
 * device calls, so their outcomes are inputs here.
 */
module ShaderStartup {
  import opened Wrappers

  datatype Stage = VertexStage | FragmentStage

  datatype ShaderError = CompileError(stage: Stage) | LinkError

  /** The device operations whose outcome decides the start-up. */
  datatype DeviceStep = Compile(stage: Stage) | Link | UseProgram

  /** GL_COMPILE_STATUS of each stage and GL_LINK_STATUS of the program, as the device reports them. */
  datatype DeviceStatus = DeviceStatus(vertexCompiles: bool, fragmentCompiles: bool, programLinks: bool)

  datatype StartupOutcome = StartupOutcome(steps: seq<DeviceStep>, error: Option<ShaderError>)

  /**
   * The steps main performs and the error it stops with. The fragment
   * stage is compiled only after the vertex stage compiled, the program is
   * linked only after both did, and it is put in use only once linked.
   */
  function Startup(status: DeviceStatus): (r: StartupOutcome)
    ensures r.steps != [] && r.steps[0] == Compile(VertexStage)
    ensures r.error == None <==> status.vertexCompiles && status.fragmentCompiles && status.programLinks
    ensures Compile(FragmentStage) in r.steps <==> status.vertexCompiles
    ensures Link in r.steps <==> status.vertexCompiles && status.fragmentCompiles
    ensures UseProgram in r.steps <==> r.error == None
    // a failure names the last step performed
    ensures r.error == Some(LinkError) ==> r.steps[|r.steps| - 1] == Link
    ensures forall s :: r.error == Some(CompileError(s)) ==> r.steps[|r.steps| - 1] == Compile(s)
    // the steps run in this order, stopping at the first failure
    ensures r.steps <= [Compile(VertexStage), Compile(FragmentStage), Link, UseProgram]
    // the error names the stage that failed
    ensures !status.vertexCompiles ==> r.error == Some(CompileError(VertexStage))
    ensures status.vertexCompiles && !status.fragmentCompiles ==> r.error == Some(CompileError(FragmentStage))
    ensures status.vertexCompiles && status.fragmentCompiles && !status.programLinks ==> r.error == Some(LinkError)
  {
    if !status.vertexCompiles then
      StartupOutcome([Compile(VertexStage)], Some(CompileError(VertexStage)))
    else if !status.fragmentCompiles then
      StartupOutcome([Compile(VertexStage), Compile(FragmentStage)], Some(CompileError(FragmentStage)))
    else if !status.programLinks then
      StartupOutcome([Compile(VertexStage), Compile(FragmentStage), Link], Some(LinkError))
    else
      StartupOutcome([Compile(VertexStage), Compile(FragmentStage), Link, UseProgram], None)
  }
}
