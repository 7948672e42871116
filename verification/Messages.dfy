/** DNS messages as far as the resolver looks into them: an id, the questions, and the answer records
    with their owner name, content and TTL. */
module Messages {
  import opened Basics
  import opened Addresses

  const TYPE_A: nat := 1

  datatype Question = Question(name: string, qtype: nat, qclass: nat)

  datatype RData = A(ip: IPv4) | Cname(target: string) | Other

  datatype Record = Record(name: string, data: RData, ttl: uint32)

  datatype Message = Message(id: nat, question: seq<Question>, response: bool, answer: seq<Record>)

  predicate HasSingleQuestion(msg: Message) {
    |msg.question| == 1
  }
}
