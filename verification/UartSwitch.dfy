/** One rate switch of the loader and the way back to the default, over a line that loses frames
    and acks. */
module UartSwitch {

  /** What happens to one exchange: the device may first fall back to its built-in rate, it may
      hear the frame (only at its own rate) and accept it, and the reply may arrive. */
  datatype Exchange = Exchange(fallsBack: bool, heard: bool, accepted: bool, arrives: bool)

  /** Up to `tries` status requests, each lost, unheard or answered: whether one was answered, where the
      device is, and the number of exchanges. */
  function Asked(fate: nat -> Exchange, builtIn: nat, host: nat, device: nat, call: nat, tries: nat)
    : (r: (bool, nat, nat))
    ensures call <= r.2 <= call + tries && (!r.0 ==> r.2 == call + tries)
    decreases tries
  {
    if tries == 0 then (false, device, call) else
      var x := fate(call);
      var at := if x.fallsBack then builtIn else device;
      if at == host && x.heard && x.arrives then (true, at, call + 1)
      else Asked(fate, builtIn, host, at, call + 1, tries - 1)
  }

  class Link {
    const fate: nat -> Exchange
    const builtIn: nat
    var host: nat
    var device: nat
    var seqno: nat
    var calls: nat

    constructor (fate: nat -> Exchange, builtIn: nat, rate: nat)
      ensures this.fate == fate && this.builtIn == builtIn
      ensures host == rate == device && calls == 0 && seqno == 0
    {
      this.fate, this.builtIn := fate, builtIn;
      host, device, seqno, calls := rate, rate, 0, 0;
    }

    /** set_rate: the host follows only a positive reply; the device changes its rate with the
        reply, whether or not the reply arrives. */
    method SetRate(baud: nat) returns (switched: bool)
      modifies this
      ensures switched ==> host == baud && device == baud
      ensures !switched ==> host == old(host)
      ensures device == old(device) || device == baud || device == builtIn
      ensures seqno == (old(seqno) + 1) % 256 && calls == old(calls) + 1
      ensures var x := fate(old(calls));
        var at := if x.fallsBack then builtIn else old(device);
        var accepts := at == old(host) && x.heard && x.accepted;
        device == (if accepts then baud else at) && switched == (accepts && x.arrives)
    {
      var x := fate(calls);
      calls, seqno := calls + 1, (seqno + 1) % 256;
      if x.fallsBack {
        device := builtIn;
      }
      var answers := device == host && x.heard && x.accepted;
      if answers {
        device := baud;
      }
      switched := answers && x.arrives;
      if switched {
        host := baud;
      }
    }

    /** A status request: an answer shows that the device is at the host's rate. */
    method Status() returns (answered: bool)
      modifies this`device, this`calls, this`seqno
      ensures (answered, device, calls) == Asked(fate, builtIn, host, old(device), old(calls), 3)
      ensures answered ==> device == host
      ensures device == old(device) || device == builtIn
    {
      answered := false;
      var tries := 0;
      while tries < 3 && !answered
        invariant device == old(device) || device == builtIn
        invariant answered ==> device == host
        invariant tries <= 3 && calls == old(calls) + tries
        invariant (if answered then (true, device, calls) else Asked(fate, builtIn, host, device, calls, 3 - tries))
          == Asked(fate, builtIn, host, old(device), old(calls), 3)
        decreases 3 - tries
      {
        var x := fate(calls);
        calls, seqno := calls + 1, (seqno + 1) % 256;
        if x.fallsBack {
          device := builtIn;
        }
        answered := device == host && x.heard && x.arrives;
        tries := tries + 1;
      }
    }

    /** back_to_default: up to three switches, each lost ack checked by a status at the default. A
        reported switch is always true, the ack having arrived or not; a failure leaves the host at
        the old rate, and the device is at one of the two throughout. */
    method BackToDefault(rate: nat) returns (switched: bool)
      requires host == rate && (device == rate || device == builtIn)
      modifies this
      ensures switched ==> host == builtIn && device == builtIn
      ensures !switched ==> host == rate
      ensures device == rate || device == builtIn
      ensures old(calls) < calls <= old(calls) + 12 && (!switched ==> calls == old(calls) + 12)
    {
      for attempt := 0 to 3
        invariant host == rate && (device == rate || device == builtIn)
        invariant calls == old(calls) + 4 * attempt
      {
        var back := SetRate(builtIn);
        if back {
          return true;
        }
        host := builtIn;
        var answered := Status();
        if answered {
          return true;
        }
        host := rate;
      }
      switched := false;
    }
  }
}
