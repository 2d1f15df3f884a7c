/** Segments and acknowledgements (util/tcp_sender_message.hh, util/tcp_receiver_message.hh). */
module TcpMessages {
  import opened Words

  datatype Segment = Segment(seqno: U32, syn: bool, payload: seq<Byte>, fin: bool) {
    /** The sequence numbers the segment occupies. */
    function Length(): nat {
      Count(syn) + |payload| + Count(fin)
    }
  }

  datatype Ack = Ack(ackno: Option<U32>, windowSize: U16)
}
