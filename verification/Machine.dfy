/** What a call into the kernel can end in: a value, or a halt in `panic`. */
module Machine {

  datatype Panic =
    | OutOfFrames           // kernel/mm/pmm.c:258
    | UnalignedFree         // kernel/mm/pmm.c:267
    | DoubleFree            // kernel/mm/pmm.c:272
    | BootDataTooHigh       // kernel/mm/pmm.c:75
    | BitmapTooHigh         // kernel/mm/pmm.c:165
    | MappingFailed         // kernel/mm/paging.c:168 and 196, kernel/mm/vmm.c:71 and 140
    | NeverMapped           // kernel/mm/vmm.c:116
    | HeapExhausted         // kernel/mm/vmm.c:86
    | PageFault             // kernel/arch/x86_64/irh/page_fault.c:24

  datatype Halting<+T> = Returned(value: T) | Halted(reason: Panic)
}
