/**
 * Input commands (include/systems/input_system.h). Float payloads, the zoom
 * wheel and the mouse position, are carried as `real`s and never computed on.
 */
module Commands {

  datatype Vec2 = Vec2(x: real, y: real)

  const ORIGIN: Vec2 := Vec2(0.0, 0.0)

  /** InputCommand: the tag and the union member it selects. */
  datatype Command =
    | NoCommand
    | Move(dx: int, dy: int)
    | Zoom(wheel: real)
    | ToggleDebug
    | PlaceTile(mousePos: Vec2)
}
