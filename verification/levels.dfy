/** The difficulty levels a player can pick (declared in src/app.rs). */
module Levels {

  datatype Difficulty = Easy | Medium | Hard
}
