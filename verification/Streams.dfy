/** The two market streams of a connection: order book updates and trades. */
module Streams {
  datatype StreamKind = Depth | Trade
}
