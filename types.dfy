/** The shared records of lib/types.ts, plus an Option for the nullable fields. */
module Types {

  datatype Option<+T> = None | Some(value: T)

  /** A player as the server stores it and the client store receives it. */
  datatype Player = Player(id: string, name: string, score: int, isHost: bool)

  /** The three phases of a room. */
  datatype GameState = Waiting | Playing | Results

  /** One entry of the static object catalog. */
  datatype GameObject = GameObject(name: string, image: string, canFly: bool)
}
