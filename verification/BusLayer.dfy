/** The cyclic part of EthercatBusBase: write, read, and the check of the work counter. */
module BusLayer {
  import opened Basics
  import opened ProcessData

  class Bus {
    const exchange: Exchange
    const outputsWKC: nat
    const inputsWKC: nat
    var sentProcessData: bool
    var workingCounterTooLowCounter: nat
    var wkc: int

    constructor (exchange: Exchange, outputsWKC: nat, inputsWKC: nat)
      ensures this.exchange == exchange && this.outputsWKC == outputsWKC && this.inputsWKC == inputsWKC
      ensures !sentProcessData && workingCounterTooLowCounter == 0
    {
      this.exchange, this.outputsWKC, this.inputsWKC := exchange, outputsWKC, inputsWKC;
      sentProcessData, workingCounterTooLowCounter, wkc := false, 0, 0;
    }

    /** updateWrite: send a cycle; the slaves' own writing into the image comes before. */
    method UpdateWrite(g: View) returns (sent: seq<Frame>)
      requires InTable(g, false) && 8 * (g.obytes + g.ibytes) <= |exchange.image|
      modifies this`sentProcessData, exchange`stack, exchange`nextIndex
      ensures sentProcessData
      ensures AllInImage(Cycle(g, false), |exchange.image|)
              && sent == Frames(Cycle(g, false), exchange.image, old(exchange.nextIndex))
      ensures exchange.stack == PushAll(old(exchange.stack), Cycle(g, false), old(exchange.nextIndex))
    {
      var _, frames := exchange.Send(g, false);
      sent := frames;
      sentProcessData := true;
    }

    /** updateRead: receive a cycle once; only a sufficient work counter lets the slaves read. */
    method UpdateRead(rx: map<nat, Reply>) returns (slavesRead: bool)
      requires exchange.pulled == 0
      modifies this, exchange
      ensures !old(sentProcessData) ==>
        && !slavesRead && wkc == old(wkc) && workingCounterTooLowCounter == old(workingCounterTooLowCounter)
        && exchange.image == old(exchange.image) && exchange.stack == old(exchange.stack)
      ensures !sentProcessData && exchange.pulled == 0
      ensures old(sentProcessData) ==>
        var st := ReceiveAll(State(old(exchange.image), old(exchange.clock), 0, false), old(exchange.stack), rx);
        && exchange.image == st.image && exchange.stack == []
        && wkc == (if st.valid then st.wkc else EC_NOFRAME)
        && slavesRead == (wkc >= 2 * outputsWKC + inputsWKC)
        && workingCounterTooLowCounter == if slavesRead then 0 else old(workingCounterTooLowCounter) + 1
    {
      slavesRead := false;
      if !sentProcessData {
        return;
      }
      wkc := exchange.ReceiveReplies(rx);
      sentProcessData := false;
      var expectedWorkingCounter := outputsWKC * 2 + inputsWKC;
      if wkc < expectedWorkingCounter {
        workingCounterTooLowCounter := workingCounterTooLowCounter + 1;
        return;
      }
      workingCounterTooLowCounter := 0;
      slavesRead := true;
    }
  }
}
