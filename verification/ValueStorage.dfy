/** Value as the source keeps it: a type tag over a union whose text and blob members are
    constructed and destroyed by hand (src/sl3/value.cpp). */
module ValueStorage {
  import opened Doubles
  import opened Results
  import opened Values

  /** Which member of the union is alive. A member read or written while another one is alive
      would not verify. */
  datatype Store = Nothing | IntMember(i: Int64) | RealMember(d: Double) | TextMember(text: Bytes) | BlobMember(blob: Bytes)

  predicate Payload(s: Store) {
    s.TextMember? || s.BlobMember?
  }

  /** How many strings and blobs were ever constructed and destroyed in the unions. */
  class Ledger {
    ghost var constructed: nat
    ghost var destroyed: nat

    constructor ()
      ensures constructed == 0 && destroyed == 0
    {
      constructed, destroyed := 0, 0;
    }

    ghost function Balance(): int
      reads this
    {
      constructed - destroyed
    }
  }

  function Weight(v: Val): nat {
    if v.TextVal? || v.BlobVal? then 1 else 0
  }

  class Value {
    var tag: Type
    var store: Store
    const ledger: Ledger

    /** The tag names the member that is alive. Under Null a number may be left over. */
    predicate Agrees()
      reads this
    {
      match tag
      case Null => !Payload(store)
      case Int => store.IntMember?
      case Real => store.RealMember?
      case Text => store.TextMember?
      case Blob => store.BlobMember?
      case Variant => false
    }

    function Content(): Val
      requires Agrees()
      reads this
    {
      match tag
      case Int => IntVal(store.i)
      case Real => RealVal(store.d)
      case Text => TextVal(store.text)
      case Blob => BlobVal(store.blob)
      case _ => NullVal
    }

    // ----- what the source does to the union

    /** Placement new of a string. */
    method NewText(s: Bytes)
      requires !Payload(store)
      modifies `store, ledger
      ensures store == TextMember(s)
      ensures ledger.constructed == old(ledger.constructed) + 1 && ledger.destroyed == old(ledger.destroyed)
    {
      store := TextMember(s);
      ledger.constructed := ledger.constructed + 1;
    }

    method NewBlob(s: Bytes)
      requires !Payload(store)
      modifies `store, ledger
      ensures store == BlobMember(s)
      ensures ledger.constructed == old(ledger.constructed) + 1 && ledger.destroyed == old(ledger.destroyed)
    {
      store := BlobMember(s);
      ledger.constructed := ledger.constructed + 1;
    }

    /** The destructor call on a live string. */
    method DropText()
      requires store.TextMember?
      modifies `store, ledger
      ensures store == Nothing
      ensures ledger.constructed == old(ledger.constructed) && ledger.destroyed == old(ledger.destroyed) + 1
    {
      store := Nothing;
      ledger.destroyed := ledger.destroyed + 1;
    }

    method DropBlob()
      requires store.BlobMember?
      modifies `store, ledger
      ensures store == Nothing
      ensures ledger.constructed == old(ledger.constructed) && ledger.destroyed == old(ledger.destroyed) + 1
    {
      store := Nothing;
      ledger.destroyed := ledger.destroyed + 1;
    }

    /** std::move out of the live string: it stays alive, its content is unspecified. */
    method TakeText() returns (s: Bytes)
      requires store.TextMember?
      modifies `store
      ensures s == old(store).text && store.TextMember?
    {
      s := store.text;
      var rest: Bytes := *;
      store := TextMember(rest);
    }

    method TakeBlob() returns (s: Bytes)
      requires store.BlobMember?
      modifies `store
      ensures s == old(store).blob && store.BlobMember?
    {
      s := store.blob;
      var rest: Bytes := *;
      store := BlobMember(rest);
    }

    /** What every assignment of another type starts with. */
    method DropPayload()
      requires Agrees()
      modifies `store, ledger
      ensures !Payload(store)
      ensures ledger.Balance() == old(ledger.Balance()) - old(Weight(Content()))
    {
      if tag == Text {
        DropText();
      } else if tag == Blob {
        DropBlob();
      }
    }

    // ----- construction and destruction

    constructor (ledger: Ledger)
      ensures this.ledger == ledger && Agrees() && Content() == NullVal
    {
      this.ledger := ledger;
      tag, store := Null, Nothing;
    }

    constructor From(v: Val, ledger: Ledger)
      modifies ledger
      ensures this.ledger == ledger && Agrees() && Content() == v
      ensures ledger.Balance() == old(ledger.Balance()) + Weight(v)
    {
      this.ledger := ledger;
      tag, store := TypeOf(v), Nothing;
      new;
      match v
      case NullVal =>
      case IntVal(i) => store := IntMember(i);
      case RealVal(d) => store := RealMember(d);
      case TextVal(s) => NewText(s);
      case BlobVal(s) => NewBlob(s);
    }

    constructor Copy(other: Value)
      requires other.Agrees()
      modifies other.ledger
      ensures ledger == other.ledger && Agrees() && Content() == old(other.Content())
      ensures ledger.Balance() == old(other.ledger.Balance()) + Weight(Content())
    {
      ledger := other.ledger;
      tag, store := other.tag, Nothing;
      new;
      match tag
      case Int => store := IntMember(other.store.i);
      case Real => store := RealMember(other.store.d);
      case Text => NewText(other.store.text);
      case Blob => NewBlob(other.store.blob);
      case _ =>
    }

    constructor Move(other: Value)
      requires other.Agrees()
      modifies other, other.ledger
      ensures ledger == other.ledger && Agrees() && Content() == old(other.Content())
      ensures other.Agrees() && other.Content() == NullVal
      ensures ledger.Balance() == old(other.ledger.Balance())
    {
      ledger := other.ledger;
      tag, store := other.tag, IntMember(0);
      new;
      match tag {
        case Int => store := IntMember(other.store.i);
        case Real => store := RealMember(other.store.d);
        case Text =>
          var s := other.TakeText();
          NewText(s);
          other.DropText();
        case Blob =>
          var s := other.TakeBlob();
          NewBlob(s);
          other.DropBlob();
        case _ =>
      }
      other.tag := Null;
    }

    method Destroy()
      requires Agrees()
      modifies `store, ledger
      ensures !Payload(store)
      ensures ledger.Balance() == old(ledger.Balance()) - old(Weight(Content()))
    {
      DropPayload();
    }

    // ----- assignment

    method CopyAssign(other: Value)
      requires Agrees() && other.Agrees() && other.ledger == ledger
      modifies this, ledger
      ensures Agrees() && Content() == old(other.Content())
      ensures ledger.Balance() == old(ledger.Balance()) - old(Weight(Content())) + Weight(Content())
    {
      if tag == Text {
        if other.tag == Text {
          store := TextMember(other.store.text);
          return;
        }
        DropText();
      } else if tag == Blob {
        if other.tag == Blob {
          store := BlobMember(other.store.blob);
          return;
        }
        DropBlob();
      }
      tag := other.tag;
      match tag
      case Int => store := IntMember(other.store.i);
      case Real => store := RealMember(other.store.d);
      case Text => NewText(other.store.text);
      case Blob => NewBlob(other.store.blob);
      case _ =>
    }

    method MoveAssign(other: Value)
      requires Agrees() && other.Agrees() && other.ledger == ledger
      modifies this, other, ledger
      ensures Agrees() && other.Agrees() && other.Content() == NullVal
      ensures this != other ==> Content() == old(other.Content())
      ensures ledger.Balance() == old(ledger.Balance()) - old(Weight(Content()))
    {
      if tag == Text {
        if other.tag == Text {
          var s := other.TakeText();
          store := TextMember(s);
          other.SetNull();
          return;
        }
        DropText();
      } else if tag == Blob {
        if other.tag == Blob {
          var s := other.TakeBlob();
          store := BlobMember(s);
          other.SetNull();
          return;
        }
        DropBlob();
      }
      tag := other.tag;
      match tag {
        case Int => store := IntMember(other.store.i);
        case Real => store := RealMember(other.store.d);
        case Text =>
          var s := other.TakeText();
          NewText(s);
          other.DropText();
        case Blob =>
          var s := other.TakeBlob();
          NewBlob(s);
          other.DropBlob();
        case _ =>
      }
      other.tag := Null;
    }

    method AssignInt(i: Int64)
      requires Agrees()
      modifies this, ledger
      ensures Agrees() && Content() == IntVal(i)
      ensures ledger.Balance() == old(ledger.Balance()) - old(Weight(Content()))
    {
      DropPayload();
      store := IntMember(i);
      tag := Int;
    }

    method AssignReal(d: Double)
      requires Agrees()
      modifies this, ledger
      ensures Agrees() && Content() == RealVal(d)
      ensures ledger.Balance() == old(ledger.Balance()) - old(Weight(Content()))
    {
      DropPayload();
      store := RealMember(d);
      tag := Real;
    }

    method AssignText(s: Bytes)
      requires Agrees()
      modifies this, ledger
      ensures Agrees() && Content() == TextVal(s)
      ensures ledger.Balance() == old(ledger.Balance()) - old(Weight(Content())) + 1
    {
      if tag == Text {
        store := TextMember(s);
        return;
      } else if tag == Blob {
        DropBlob();
      }
      NewText(s);
      tag := Text;
    }

    method AssignBlob(s: Bytes)
      requires Agrees()
      modifies this, ledger
      ensures Agrees() && Content() == BlobVal(s)
      ensures ledger.Balance() == old(ledger.Balance()) - old(Weight(Content())) + 1
    {
      if tag == Text {
        DropText();
      } else if tag == Blob {
        store := BlobMember(s);
        return;
      }
      NewBlob(s);
      tag := Blob;
    }

    method EjectText() returns (r: Result<Bytes>)
      requires Agrees()
      modifies this, ledger
      ensures Agrees()
      ensures old(tag) == Text ==> r == Ok(old(store).text) && Content() == NullVal
      ensures old(tag) != Text ==> r == Err(if old(tag) == Null then NullValueAccess else TypeMisMatch) && Content() == old(Content())
      ensures ledger.Balance() == old(ledger.Balance()) - old(Weight(Content())) + Weight(Content())
    {
      if tag == Null {
        return Err(NullValueAccess);
      } else if tag != Text {
        return Err(TypeMisMatch);
      }
      var tmp := TakeText();
      DropText();
      tag := Null;
      return Ok(tmp);
    }

    method EjectBlob() returns (r: Result<Bytes>)
      requires Agrees()
      modifies this, ledger
      ensures Agrees()
      ensures old(tag) == Blob ==> r == Ok(old(store).blob) && Content() == NullVal
      ensures old(tag) != Blob ==> r == Err(if old(tag) == Null then NullValueAccess else TypeMisMatch) && Content() == old(Content())
      ensures ledger.Balance() == old(ledger.Balance()) - old(Weight(Content())) + Weight(Content())
    {
      if tag == Null {
        return Err(NullValueAccess);
      } else if tag != Blob {
        return Err(TypeMisMatch);
      }
      var tmp := TakeBlob();
      DropBlob();
      tag := Null;
      return Ok(tmp);
    }

    method SetNull()
      requires Agrees()
      modifies this, ledger
      ensures Agrees() && Content() == NullVal
      ensures ledger.Balance() == old(ledger.Balance()) - old(Weight(Content()))
    {
      DropPayload();
      tag := Null;
    }

    /** Three moves through a temporary: an exchange, and no change when both are one object,
        although a single move onto itself leaves Null. */
    method Swap(other: Value)
      requires Agrees() && other.Agrees() && other.ledger == ledger
      modifies this, other, ledger
      ensures Agrees() && other.Agrees()
      ensures Content() == old(other.Content()) && other.Content() == old(Content())
      ensures ledger.Balance() == old(ledger.Balance())
    {
      var t := new Value.Move(other);
      other.MoveAssign(this);
      MoveAssign(t);
      t.Destroy();
    }
  }
}
